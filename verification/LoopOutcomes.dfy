/** What each call of the connection loop does, in terms its driver can check beforehand. */
module LoopOutcomes {
  import opened Common
  import opened Frames
  import opened LoopCauses
  import opened LoopHistory
  import opened LoopInvariant
  import opened LoopRuns
  import opened LoopSpec
  import opened LoopState
  import opened Recovery
  import opened SentRecords
  import AckRanges
  import FC = FlowControl
  import FrameCodec
  import PayloadBudget
  import PV = PathValidation

  // ---------------------------------------------------------------- sending

  /** TLS has confirmed the handshake and is ready for application data, and so is the loop. */
  ghost predicate MaySendData(c: Conn, tls: Option<Tls>) {
    && tls.Some? && tls.value.confirmed && tls.value.applicationKeys && tls.value.scheduleReady
    && c.keys.oneRttSend
  }

  /** A frame that cannot be encoded follows frames that fit. */
  ghost predicate RunsInto(queue: seq<Frame>, budget: nat) {
    exists k :: 0 <= k < |queue| && !FrameCodec.Encodable(queue[k])
                && FrameCodec.AllEncodable(queue[..k]) && |FrameCodec.Payload(queue[..k])| <= budget
  }

  /**
   * The queue of a space cannot be sent: application data is not allowed yet, or no packet can be made of its front.
   */
  ghost predicate Unsendable(c: Conn, s: Space, tls: Option<Tls>, env: SendEnv)
    requires c.books.Get(s).queue != []
  {
    var first := c.books.Get(s).queue[0];
    || (s == AppSpace && !MaySendData(c, tls))
    || RunsInto(c.books.Get(s).queue, c.config.maxPayload)
    || (FrameCodec.Encodable(first) && c.config.maxPayload < |FrameCodec.Encoding(first)|)
    || env.assembled.None?
  }

  lemma StuckExactly(queue: seq<Frame>, budget: nat)
    requires queue != []
    ensures !PayloadBudget.Sound(queue, budget) <==> RunsInto(queue, budget)
    ensures !FrameCodec.Encodable(queue[0]) ==> RunsInto(queue, budget)
  {
    hide PayloadBudget.Sound, FrameCodec.Encodable;
    PayloadBudget.SoundExactly(queue, budget);
    if !FrameCodec.Encodable(queue[0]) {
      assert queue[..0] == [] && FrameCodec.Payload(queue[..0]) == [];
    }
  }

  lemma NothingAtFront(queue: seq<Frame>, budget: nat)
    requires queue != []
    ensures PayloadBudget.Front(queue, budget) == 0 <==>
            !FrameCodec.Encodable(queue[0]) || budget < |FrameCodec.Encoding(queue[0])|
  {
  }

  /**
   * Flushing a space sends a packet exactly when there is something queued, the space is live, congestion control and
   * pacing agree, a packet can be made and the amplification limit allows it; it closes exactly when a packet is due
   * and cannot be made.
   */
  lemma WhenAPacketLeaves(c: Conn, s: Space, at: int, tls: Option<Tls>, env: SendEnv)
    requires c.state.Active?
    ensures var d, queue := SpaceFlushed(c, s, at, tls, env), c.books.Get(s).queue;
            var ready := queue != [] && !c.keys.Discarded(s) && env.canSend && (s.AppSpace? ==> env.pacingAllows);
            && (d.state.Closing? <==> ready && Unsendable(c, s, tls, env))
            && (d.actions != c.actions && d.state.Active? <==>
                  ready && !Unsendable(c, s, tls, env) && PV.Allows(c.path, env.assembled.value))
            && (d.state.Active? || d.state.Closing?)
  {
    hide PayloadBudget.Front, PayloadBudget.Sound, FrameCodec.Encodable, FrameCodec.Encoding, PV.Allows, PV.Emitted,
      Cleared, Sent, WithQueue, AckEliciting, RunsInto;
    var queue := c.books.Get(s).queue;
    if queue != [] {
      NothingAtFront(queue, c.config.maxPayload);
      StuckExactly(queue, c.config.maxPayload);
      PayloadBudget.FrontIsLongest(queue, c.config.maxPayload);
    }
  }

  /** The packet holds the longest front of the queue that fits, under the next number, and the rest stays queued. */
  lemma WhatLeaves(c: Conn, s: Space, at: int, tls: Option<Tls>, env: SendEnv)
    requires c.state.Active?
    ensures var d, queue := SpaceFlushed(c, s, at, tls, env), c.books.Get(s).queue;
            d.actions != c.actions && d.state.Active? ==>
              var taken := PayloadBudget.Front(queue, c.config.maxPayload);
              && env.assembled.Some? && 0 < taken <= |queue|
              && d.actions == c.actions + [Datagram(s, c.books.Get(s).next, queue[..taken], env.assembled.value)]
              && d.past == c.past + [Did(d.actions[|c.actions|])]
              && FrameCodec.AllEncodable(queue[..taken]) && |FrameCodec.Payload(queue[..taken])| <= c.config.maxPayload
              && d.books.Get(s).queue == queue[taken..] && d.books.Get(s).next == c.books.Get(s).next + 1
              && d.path == PV.Emitted(c.path, env.assembled.value) && d.lastActivity == Some(at)
    ensures var d := SpaceFlushed(c, s, at, tls, env);
            d.actions == c.actions ==> d.past == c.past && d.path == c.path && d.state == c.state
  {
    hide PayloadBudget.Front, FrameCodec.Payload, FrameCodec.AllEncodable, PV.Emitted, AckEliciting, SpaceFlushed, Sent,
      WithQueue;
    var d, queue := SpaceFlushed(c, s, at, tls, env), c.books.Get(s).queue;
    FlushedBySending(c, s, at, tls, env);
    if d.actions != c.actions && d.state.Active? {
      var taken := PayloadBudget.Front(queue, c.config.maxPayload);
      PayloadBudget.FrontIsLongest(queue, c.config.maxPayload);
      AfterSending(c.books, s, at, AckEliciting(queue[..taken]), queue[..taken], queue[taken..]);
    }
  }

  lemma FlushedBySending(c: Conn, s: Space, at: int, tls: Option<Tls>, env: SendEnv)
    requires c.state.Active?
    ensures var d, queue := SpaceFlushed(c, s, at, tls, env), c.books.Get(s).queue;
            var taken := PayloadBudget.Front(queue, c.config.maxPayload);
            && (d.actions != c.actions && d.state.Active? ==>
                  && env.assembled.Some? && 0 < taken
                  && d == PacketSent(c, s, at, queue[..taken], AckEliciting(queue[..taken]), env.assembled.value, taken)
                            .(lastActivity := Some(at)))
            && (d.actions == c.actions ==> d.past == c.past && d.path == c.path && d.state == c.state)
  {
    hide PayloadBudget.Front, PV.Allows, Cleared, AckEliciting, HeldBack, Sendable, AllCleared, PacketSent;
    SendableMeans(c, s, tls, env);
    var queue := c.books.Get(s).queue;
    PayloadBudget.FrontIsLongest(queue, c.config.maxPayload);
    if env.assembled.Some? {
      var taken := PayloadBudget.Front(queue, c.config.maxPayload);
      SendingActs(c, s, at, queue[..taken], AckEliciting(queue[..taken]), env.assembled.value, taken);
    }
  }

  lemma SendableMeans(c: Conn, s: Space, tls: Option<Tls>, env: SendEnv)
    ensures Sendable(c, s, tls, env) ==>
              env.assembled.Some? && PayloadBudget.Front(c.books.Get(s).queue, c.config.maxPayload) != 0
  {
    hide PayloadBudget.Front, PayloadBudget.Sound, SendAllowed;
  }

  lemma SendingActs(c: Conn, s: Space, at: int, frames: seq<Frame>, ackEliciting: bool, size: u64, taken: nat)
    requires taken <= |c.books.Get(s).queue|
    ensures var d := PacketSent(c, s, at, frames, ackEliciting, size, taken);
            d.actions != c.actions && d.keys == c.keys && d.state == c.state
  {
    hide Sent, WithQueue, PV.Emitted;
  }

  lemma AfterSending(b: Books, s: Space, at: int, ackEliciting: bool, frames: seq<Frame>, rest: seq<Frame>)
    ensures var after := WithQueue(Sent(b, s, at, ackEliciting, frames), s, rest);
            after.Get(s).next == b.Get(s).next + 1 && after.Get(s).queue == rest
  {
    hide StreamRanges;
  }

  lemma AckForIsExact(received: set<nat>)
    requires received != {} && forall n | n in received :: n <= U64_MAX
    ensures IsAckFor(AckFor(received), received)
  {
    hide AckRanges.Valid, AckRanges.Expand, AckFor;
    var f := AckRanges.FrameExists(received, 0);
    assert IsAckFor(f, received);
  }

  /**
   * An acknowledgement leaves exactly when the space is live, something was received in it, a packet can be made and
   * the limit allows it; it is one ACK frame that names exactly the numbers received.
   */
  lemma WhenAnAckLeaves(c: Conn, s: Space, at: int, tls: Option<Tls>, assembled: Option<u64>)
    requires Inv(c) && c.state.Active?
    ensures var b, d := Refreshed(c, tls), AckSent(c, s, at, tls, assembled);
            var ready := !b.keys.Discarded(s) && b.books.Get(s).received != {};
            && (d.state.Closing? <==> ready && assembled.None?)
            && (d.actions != b.actions && d.state.Active? <==>
                  ready && assembled.Some? && PV.Allows(b.path, assembled.value))
            && (d.actions != b.actions && d.state.Active? ==>
                  && |d.actions| == |b.actions| + 1 && b.actions <= d.actions
                  && var a := d.actions[|b.actions|];
                     && a.Datagram? && a.space == s && a.number == b.books.Get(s).next && a.size == assembled.value
                     && |a.frames| == 1 && a.frames[0].Ack?
                     && AckRanges.Valid(a.frames[0].ack)
                     && AckRanges.Expand(a.frames[0].ack) == b.books.Get(s).received)
  {
    hide Inv, Refreshed, AckFor, AckRanges.Valid, AckRanges.Expand, PV.Allows, PV.Emitted, Sent, Cleared,
      FC.Flow.Valid, Agree;
    var b := Refreshed(c, tls);
    RefreshedKeeps(c, tls);
    InvMeans(b);
    var received := b.books.Get(s).received;
    if received != {} {
      AckForIsExact(received);
    }
  }

  /** Some CRYPTO data of a live space does not fit the packet budget. */
  predicate Overflows(c: Conn, items: seq<CryptoItem>) {
    exists i :: 0 <= i < |items| && !c.keys.Discarded(items[i].space) && items[i].frames.None?
  }

  lemma {:induction false} ItemsCloseExactly(c: Conn, items: seq<CryptoItem>, clock: int)
    requires c.state.Active?
    ensures var d := ItemsPumped(c, items, clock); d.state == if Overflows(c, items) then Closing else Active
    decreases items
  {
    hide Enqueue, AllCleared;
    if items != [] {
      var rest := items[1..];
      assert forall i | 0 <= i < |rest| :: rest[i] == items[i + 1];
      if c.keys.Discarded(items[0].space) {
        ItemsCloseExactly(c, rest, clock);
        OverflowsRest(c, items);
      } else if items[0].frames.Some? {
        var d := c.(books := Enqueue(c.books, items[0].space, items[0].frames.value));
        ItemsCloseExactly(d, rest, clock);
        OverflowsRest(c, items);
        OverflowsByKeys(c, d, rest);
      } else {
        assert Overflows(c, items);
      }
    }
  }

  lemma OverflowsRest(c: Conn, items: seq<CryptoItem>)
    requires items != [] && (c.keys.Discarded(items[0].space) || items[0].frames.Some?)
    ensures Overflows(c, items) <==> Overflows(c, items[1..])
  {
    var rest := items[1..];
    if i :| 0 <= i < |items| && !c.keys.Discarded(items[i].space) && items[i].frames.None? {
      assert rest[i - 1] == items[i];
    }
    if i :| 0 <= i < |rest| && !c.keys.Discarded(rest[i].space) && rest[i].frames.None? {
      assert items[i + 1] == rest[i];
    }
  }

  lemma OverflowsByKeys(c: Conn, d: Conn, items: seq<CryptoItem>)
    requires d.keys == c.keys
    ensures Overflows(c, items) <==> Overflows(d, items)
  {
  }

  /** Pumping TLS closes the connection exactly when TLS fails to advance or some of its data does not fit. */
  lemma WhenPumpingCloses(c: Conn, pump: Pump, clock: int)
    requires c.state.Active?
    ensures var d := Pumped(c, pump, clock);
            && (d.state.Closing? <==> pump.AdvanceFailed? || (pump.Drained? && Overflows(c, pump.items)))
            && (d.state.Active? || d.state.Closing?)
  {
    hide ItemsPumped, AllCleared, Overflows;
    if pump.Drained? {
      ItemsCloseExactly(c.(dirty := true), pump.items, clock);
      OverflowsByKeys(c, c.(dirty := true), pump.items);
    }
  }

  // ---------------------------------------------------------------- keys and path

  /** A refresh queues the pending challenge, once, when application data may be sent. */
  lemma RefreshQueuesTheChallenge(c: Conn, tls: Option<Tls>)
    ensures var d := Refreshed(c, tls);
            var before := if c.dirty then Observed(c, tls) else c;
            var waits := c.path.pending.Some? && !c.path.queued && SendAllowed(before, tls);
            && d.books == (if waits then Enqueue(before.books, AppSpace, [PathChallenge(c.path.pending.value)])
                 else before.books)
            && d.path.queued == (c.path.queued || waits) && d.path.pending == c.path.pending
            && d.keys == before.keys && d.confirmed == before.confirmed && !d.dirty
  {
    hide Swept, Enqueue;
  }

  lemma {:induction false} ChallengeIsGone(queue: seq<Frame>, token: PathToken, f: Frame)
    ensures f in WithoutChallenge(queue, token) <==> f in queue && f != PathChallenge(token)
  {
    if queue != [] {
      var n := |queue| - 1;
      ChallengeIsGone(queue[..n], token, f);
      assert queue == queue[..n] + [queue[n]];
    }
  }

  /** A server's new peer address: the old challenge leaves the queue, the new one enters it when it may be sent. */
  lemma NewAddressNewChallenge(c: Conn, at: int, token: PathToken, tls: Option<Tls>, f: Frame)
    requires c.config.server && c.path.server && c.state.Active?
    ensures var d := ValidationStarted(c, at, Some(token), tls);
            && d.path == PV.Adopted(c.path, token).(queued := SendAllowed(c, tls))
            && (f in d.books.app.queue <==>
                  || (f in c.books.app.queue
                       && !(c.path.queued && c.path.pending.Some? && f == PathChallenge(c.path.pending.value)))
                  || (SendAllowed(c, tls) && f == PathChallenge(token)))
            && d.books.initial == c.books.initial && d.books.handshake == c.books.handshake
            && SameRecords(c.books, d.books)
  {
    hide WithoutChallenge, ChallengeRemoved, PV.Adopted;
    OldChallengeIsGone(c, f);
    AdoptingWaits(c.path, token);
  }

  lemma AdoptingWaits(p: PV.Path, token: PathToken)
    requires p.server
    ensures PV.Step(p, PV.NewPeer(token)) == PV.Adopted(p, token)
    ensures PV.Adopted(p, token).pending == Some(token) && !PV.Adopted(p, token).queued
  {
  }

  lemma OldChallengeIsGone(c: Conn, f: Frame)
    ensures var d := ChallengeRemoved(c);
            && d == c.(books := d.books) && SameRecords(c.books, d.books)
            && d.books.initial == c.books.initial && d.books.handshake == c.books.handshake
            && (f in d.books.app.queue <==>
                  f in c.books.app.queue
                  && !(c.path.queued && c.path.pending.Some? && f == PathChallenge(c.path.pending.value)))
  {
    hide WithoutChallenge;
    if c.path.pending.Some? {
      ChallengeIsGone(c.books.app.queue, c.path.pending.value, f);
    }
  }

  // ---------------------------------------------------------------- packets

  /** What the frames of a packet leave alone. */
  ghost predicate SameOutside(c: Conn, d: Conn) {
    && d.state == c.state && d.actions == c.actions && d.config == c.config && d.peer == c.peer && d.keys == c.keys
    && d.dirty == c.dirty && d.closedAt == c.closedAt && d.lastActivity == c.lastActivity
  }

  lemma {:induction false} FoldsStayInside(c: Conn, s: Space, frames: seq<WireFrame>, at: int)
    ensures SameOutside(c, PathFrames(c, frames)) && SameOutside(c, AckFrames(c, s, frames, at))
    ensures SameOutside(c, CreditFrames(c, frames)) && SameOutside(c, StopFrames(c, frames))
  {
    hide Enqueue, PV.Step, AckApplied, Measured, Resolved, RangesOf, Tolds, FC.Halt, FC.RaiseData, FC.RaiseStreamData,
      FC.RaiseStreams;
    if frames != [] {
      FoldsStayInside(c, s, frames[..|frames| - 1], at);
    }
  }

  lemma RecordedStaysInside(c: Conn, p: Parsed, retired: seq<nat>, at: int)
    ensures SameOutside(c, Recorded(c, p, retired, at))
  {
    hide PathFrames, AckFrames, CreditFrames, Enqueue;
    var c1 := RetirementsQueued(c, retired);
    var c2 := PathFrames(c1, p.frames);
    var c3 := AckFrames(c2, p.space, p.frames, at);
    FoldsStayInside(c1, p.space, p.frames, at);
    FoldsStayInside(c2, p.space, p.frames, at);
    FoldsStayInside(c3, p.space, p.frames, at);
  }

  /** Some frame of the packet is refused: a reset or stream data by the streams, CRYPTO data by TLS. */
  predicate Refused(frames: seq<Frame>, env: PacketEnv) {
    exists i :: 0 <= i < |frames| && i in env.refused &&
      (frames[i].ResetStream? || frames[i].Stream? || (frames[i].Crypto? && env.before.Some?))
  }

  lemma DeliveredExactly(c: Conn, p: Parsed, at: int, env: PacketEnv)
    requires c.state.Active?
    ensures var d := Delivered(c, p, at, env);
            if Refused(p.frames, env) then d.state == Closing && d.actions == c.actions + [Close]
            else d.state == Active && d.actions == c.actions + [PacketEvent(p.space, p.number)]
  {
    hide StopFrames, HasCrypto, AllCleared, Refreshed;
    var r, k := FirstReset(p.frames, env.refused, 0), FirstCrypto(p.frames, env.refused, 0);
    var c1 := ControlTaken(c, p.frames, env.refused);
    StopsStayInside(c, p.frames[..r]);
    var c2 := CryptoTaken(c1, p.frames, env.before, env.refused);
    RefreshStaysInside(c2, env.after);
  }

  lemma {:induction false} StopsStayInside(c: Conn, frames: seq<Frame>)
    ensures StopFrames(c, frames).state == c.state && StopFrames(c, frames).actions == c.actions
  {
    hide FC.Halt;
    if frames != [] {
      StopsStayInside(c, frames[..|frames| - 1]);
    }
  }

  lemma RefreshStaysInside(c: Conn, tls: Option<Tls>)
    ensures Refreshed(c, tls).state == c.state && Refreshed(c, tls).actions == c.actions
  {
    hide Swept, PV.Step, Enqueue;
  }

  /** Before application data only a few kinds of frame are allowed, and some are never for a server to receive. */
  ghost predicate IsLawful(server: bool, s: Space, f: Frame) {
    match f
    case Padding(_) => true
    case Ping => true
    case Crypto(_, _) => true
    case ConnectionClose(_, _, _) => true
    case Ack(ack) => AckRanges.Valid(ack)
    case NewToken(_) => s == AppSpace && !server
    case HandshakeDone => s == AppSpace && !server
    case _ => s == AppSpace
  }

  lemma LawfulExactly(server: bool, s: Space, frames: seq<Frame>)
    ensures AllAllowed(server, s, frames) <==> forall i | 0 <= i < |frames| :: IsLawful(server, s, frames[i])
  {
    hide AckRanges.Valid;
    assert forall i | 0 <= i < |frames| :: AllowedFrom(server, s, frames[i]) <==> IsLawful(server, s, frames[i]);
  }

  /**
   * A packet whose number is new: an unacceptable address or a frame that is not allowed closes the connection, a close
   * from the peer drains it, a connection ID violation or a refused frame closes it, and otherwise the driver gets one
   * event. A number seen before changes nothing.
   */
  lemma WhatAPacketDoes(c: Conn, p: Parsed, from: Endpoint, size: u64, at: int, env: PacketEnv)
    requires c.state.Active?
    ensures var d := Processed(c, p, from, size, at, env);
            var welcome := from == c.peer
                        || (!c.config.migrationDisabled && (!c.config.server || env.token.Some?));
            var lawful := forall i | 0 <= i < |p.frames| :: IsLawful(c.config.server, p.space, p.frames[i]);
            var closes := exists i :: 0 <= i < |p.frames| &&
                            (p.frames[i].ConnectionClose? || p.frames[i].ApplicationClose?);
            && (p.number !in c.books.Get(p.space).received && welcome ==> d.lastActivity == Some(at))
            && if p.number in c.books.Get(p.space).received then d == c
               else if !welcome || !lawful then d.state == Closing && d.actions == c.actions + [Close]
               else if closes then d.state == Draining && d.actions == c.actions + [Close]
               else if env.retired.None? || Refused(p.frames, env)
               then d.state == Closing && d.actions == c.actions + [Close]
               else d.state == Active && d.actions == c.actions + [PacketEvent(p.space, p.number)] && d.peer == from
  {
    LawfulExactly(c.config.server, p.space, p.frames);
    hide IsLawful, AllAllowed, FramesTaken, Refused, PeerMet, WithReceived, PV.Step;
    var c0 := Noticed(c, p.space, p.number);
    PeerIsMet(c0, from, at, env.token, env.before);
    var c1 := PeerMet(c0, from, at, env.token, env.before);
    if c1.state.Active? {
      WhatFramesDo(CountReceived(c1, size, at), p, at, env);
    }
  }

  lemma PeerIsMet(c: Conn, from: Endpoint, at: int, token: Option<PathToken>, tls: Option<Tls>)
    requires c.state.Active?
    ensures var d := PeerMet(c, from, at, token, tls);
            && d.config == c.config
            && if Acceptable(c.peer, from, c.config, token)
               then d.state == Active && d.actions == c.actions && d.peer == from
               else d.state == Closing && d.actions == c.actions + [Close]
  {
    hide ValidationStarted, AllCleared;
    StartStaysInside(c.(peer := from), at, token, tls);
  }

  lemma WhatFramesDo(c: Conn, p: Parsed, at: int, env: PacketEnv)
    requires c.state.Active?
    ensures var d := FramesTaken(c, p, at, env);
            && d.peer == c.peer && d.lastActivity == c.lastActivity
            && if !AllAllowed(c.config.server, p.space, p.frames)
               then d.state == Closing && d.actions == c.actions + [Close]
               else if PeerCloses(p.frames) then d.state == Draining && d.actions == c.actions + [Close]
               else if env.retired.None? || Refused(p.frames, env)
               then d.state == Closing && d.actions == c.actions + [Close]
               else d.state == Active && d.actions == c.actions + [PacketEvent(p.space, p.number)]
  {
    hide AllAllowed, PeerCloses, Recorded, Delivered, Refused, AllCleared;
    if env.retired.Some? {
      RecordedStaysInside(c, p, env.retired.value, at);
      var d := Recorded(c, p, env.retired.value, at);
      DeliveredExactly(d, p, at, env);
      DeliveredPeer(d, p, at, env);
    }
  }

  lemma DeliveredPeer(c: Conn, p: Parsed, at: int, env: PacketEnv)
    ensures var d := Delivered(c, p, at, env); d.peer == c.peer && d.lastActivity == c.lastActivity
  {
    hide StopFrames, HasCrypto, AllCleared, Refreshed, FirstReset, FirstCrypto, StreamRefused;
    StopsKeepPeer(c, p.frames[..FirstReset(p.frames, env.refused, 0)]);
    var c2 := CryptoTaken(ControlTaken(c, p.frames, env.refused), p.frames, env.before, env.refused);
    RefreshKeepsPeer(c2, env.after);
  }

  lemma {:induction false} StopsKeepPeer(c: Conn, frames: seq<Frame>)
    ensures StopFrames(c, frames).peer == c.peer && StopFrames(c, frames).lastActivity == c.lastActivity
  {
    hide FC.Halt;
    if frames != [] {
      StopsKeepPeer(c, frames[..|frames| - 1]);
    }
  }

  lemma RefreshKeepsPeer(c: Conn, tls: Option<Tls>)
    ensures Refreshed(c, tls).peer == c.peer && Refreshed(c, tls).lastActivity == c.lastActivity
  {
    hide Swept, PV.Step, Enqueue;
  }

  lemma StartStaysInside(c: Conn, at: int, token: Option<PathToken>, tls: Option<Tls>)
    requires c.state.Active?
    ensures var d := ValidationStarted(c, at, token, tls);
            && d.peer == c.peer && d.config == c.config
            && (if token.Some? then d.state == Active && d.actions == c.actions
                else d.state == Closing && d.actions == c.actions + [Close])
  {
    hide PV.Step, WithQueue, WithoutChallenge, AllCleared;
  }

  // ---------------------------------------------------------------- lifecycle timers

  /** When the timer of the connection's state runs out; a clock that was not running starts now. */
  function Deadline(c: Conn, now: int): int {
    if c.state.Active? then (if c.lastActivity.Some? then c.lastActivity.value else now) + c.config.idleTimeout
    else (if c.closedAt.Some? then c.closedAt.value else now) + c.config.drainTimeout
  }

  /** Each state has a timer of its own. */
  predicate IsTimerOf(kind: TimerKind, state: State) {
    || (state == Active && kind == IdleTimer) || (state == Closing && kind == ClosingTimer)
    || (state == Draining && kind == DrainingTimer)
  }

  /** There is a timer: the connection is not closed for good, and an active one has an idle timeout. */
  predicate HasTimer(c: Conn) {
    !c.state.Closed? && (c.state.Active? ==> 0 < c.config.idleTimeout)
  }

  /**
   * A lifecycle timer moves the connection exactly when it is the timer of the connection's own state and its deadline
   * has been reached: an idle connection closes, with one close action, and a closing or draining one ends.
   */
  lemma WhenALifecycleTimerActs(c: Conn, kind: TimerKind, now: int)
    ensures Lifecycle(c, now).Some? <==> HasTimer(c)
    ensures HasTimer(c) ==>
              IsTimerOf(Lifecycle(c, now).value.kind, c.state) && Lifecycle(c, now).value.deadline == Deadline(c, now)
    ensures var d := LifecycleFired(c, kind, now);
            && (d.state != c.state <==> HasTimer(c) && IsTimerOf(kind, c.state) && Deadline(c, now) <= now)
            && (d.state != c.state ==>
                  if c.state.Active?
                  then d.state == Closing && d.actions == c.actions + [Close] && d.closedAt == Some(now)
                  else d.state == Closed && d.actions == [] && d.past == c.past)
            && (d.state == c.state ==> d.actions == c.actions && d.books == c.books && d.past == c.past)
  {
    hide AllCleared;
  }

  // ---------------------------------------------------------------- actions that are never handed out

  /** Everything emitted was handed out or is pending. */
  ghost predicate NothingLost(c: Conn) {
    HandedOut(c.past) + c.actions == Emitted(c.past)
  }

  lemma FlushDoesNotEnd(c: Conn, at: int, env: FlushEnv)
    requires !c.state.Closed?
    ensures !Flushed(c, at, env).state.Closed?
  {
    hide Refreshed, Pumped, SpacesFlushed;
    if c.state.Active? {
      var c1 := Refreshed(c, env.before);
      RefreshStaysInside(c, env.before);
      WhenPumpingCloses(c1, env.pump, env.clock);
      RefreshStaysInside(Pumped(c1, env.pump, env.clock), env.after);
      SpacesDoNotEnd(Refreshed(Pumped(c1, env.pump, env.clock), env.after), at, env);
    }
  }

  lemma SpacesDoNotEnd(c: Conn, at: int, env: FlushEnv)
    requires !c.state.Closed?
    ensures !SpacesFlushed(c, at, env).state.Closed?
  {
    hide SpaceFlushed, Unsendable, PV.Allows;
    if c.state.Active? {
      WhenAPacketLeaves(c, InitialSpace, at, env.after, env.initial);
      var c1 := SpaceFlushed(c, InitialSpace, at, env.after, env.initial);
      if c1.state.Active? {
        WhenAPacketLeaves(c1, HandshakeSpace, at, env.after, env.handshake);
        var c2 := SpaceFlushed(c1, HandshakeSpace, at, env.after, env.handshake);
        if c2.state.Active? {
          WhenAPacketLeaves(c2, AppSpace, at, env.after, env.application);
        }
      }
    }
  }

  lemma {:induction false} ChunksDoNotEnd(c: Conn, chunks: seq<Chunk>, from: Endpoint, at: int)
    requires c.state.Active?
    ensures !ChunksTaken(c, chunks, from, at).state.Closed?
    decreases chunks
  {
    hide Processed, AllCleared, Cleared, Acceptable, AllAllowed, PeerCloses, Refused;
    if chunks != [] && chunks[0].LongPacket? {
      var k, rest := chunks[0], chunks[1..];
      if c.keys.Discarded(k.space) {
        ChunksDoNotEnd(ClearedSpace(c, k.space), rest, from, at);
      } else if k.parsed.Some? {
        WhatAPacketDoes(c, PacketIn(k.space, k.parsed.value), from, k.size, at, k.env);
        var d := Processed(c, PacketIn(k.space, k.parsed.value), from, k.size, at, k.env);
        if d.state.Active? {
          ChunksDoNotEnd(d, rest, from, at);
        }
      }
    }
  }

  lemma DatagramDoesNotEnd(c: Conn, d: Inbound, from: Endpoint, at: int, tls: Option<Tls>)
    requires !c.state.Closed?
    ensures !DatagramTaken(c, d, from, at, tls).state.Closed?
  {
    hide Refreshed, ChunksTaken, Processed, AllCleared, Cleared, Acceptable, AllAllowed, PeerCloses, Refused;
    if c.state.Active? {
      RefreshStaysInside(c, tls);
      var c1 := Refreshed(c, tls);
      match d
      case LongDatagram(chunks) => ChunksDoNotEnd(c1, chunks, from, at);
      case ShortDatagram(size, parsed, statelessReset, env) =>
        if parsed.Some? {
          WhatAPacketDoes(c1, PacketIn(AppSpace, parsed.value), from, size, at, env);
        }
    }
  }

  lemma AckDoesNotEnd(c: Conn, s: Space, at: int, tls: Option<Tls>, assembled: Option<u64>)
    requires !c.state.Closed?
    ensures !AckSent(c, s, at, tls, assembled).state.Closed?
  {
    hide Refreshed, AckFor, AllCleared, Cleared, Sent, WithQueue, PV.Allows, PV.Emitted;
    RefreshStaysInside(c, tls);
  }

  lemma TimerDoesNotEnd(c: Conn, s: Space, now: int, tls: Option<Tls>)
    ensures TimerFired(c, s, now, tls).state == c.state && NextTimerAsked(c, tls).state == c.state
  {
    hide Refreshed, Cleared, TimerLosses, Resolved, RangesOf, Tolds, MarkAll, MarkSent;
    RefreshStaysInside(c, tls);
  }

  /** Only a lifecycle timer ends a connection. */
  lemma OnlyTimersEnd(c: Conn, call: Call)
    requires c.flow.Valid() && !c.state.Closed? && !call.CallLifecycleTimer?
    ensures !Step(c, call).state.Closed?
  {
    hide Flushed, AckSent, DatagramTaken, TimerFired, NextTimerAsked, Cleared, WithQueue, FC.Flow.Valid, FC.Schedule,
      FC.Write, FC.RaiseData;
    match call
    case CallFlush(at, env) => FlushDoesNotEnd(c, at, env);
    case CallAcknowledge(space, at, tls, assembled) => AckDoesNotEnd(c, space, at, tls, assembled);
    case CallDatagram(inbound, from, at, tls) => DatagramDoesNotEnd(c, inbound, from, at, tls);
    case CallRecoveryTimer(space, at, tls) => TimerDoesNotEnd(c, space, at, tls);
    case CallNextRecoveryTimer(tls) => TimerDoesNotEnd(c, InitialSpace, 0, tls);
    case _ =>
  }

  /** The call ends the connection while actions are pending. */
  predicate Drops(c: Conn, call: Call) {
    && call.CallLifecycleTimer? && !c.state.Active? && c.actions != []
    && IsTimerOf(call.kind, c.state) && Deadline(c, call.at) <= call.at
  }

  /**
   * Exactly when actions are lost: a closing or draining connection ends by its own timer, at or after the deadline,
   * with actions that no driver has taken.
   */
  lemma WhenActionsAreLost(c: Conn, call: Call)
    requires Inv(c) && !c.state.Closed?
    ensures c.flow.Valid() && NothingLost(c)
    ensures !NothingLost(Step(c, call)) <==> Drops(c, call)
  {
    hide Inv, Step, Emitted, HandedOut, Deadline;
    StepKeeps(c, call);
    ActionsAreHandedInOrder(c);
    var d := Step(c, call);
    ActionsAreHandedInOrder(d);
    if call.CallLifecycleTimer? {
      LifecycleStep(c, call);
      WhenALifecycleTimerActs(c, call.kind, call.at);
    } else {
      OnlyTimersEnd(c, call);
    }
  }

  /** On a connection that has ended no call loses any more. */
  lemma EndedLosesNoMore(c: Conn, call: Call)
    requires Inv(c) && c.state.Closed?
    ensures c.flow.Valid() && NothingLost(Step(c, call)) == NothingLost(c)
  {
    hide Inv, Step, Emitted, HandedOut, Run;
    StepKeeps(c, call);
    EndedHasNoActions(c);
    EndedHasNoActions(Step(c, call));
    RunEmpty(c);
    RunGrows(c, [], call);
    ClosingIsFinal(c, [] + [call]);
    MomentsHaveCauses(c, call);
    var d := Step(c, call);
    forall i | |c.past| <= i < |d.past| && d.past[i].Handed?
      ensures d.past[i].actions == []
    {
      HandedIsPending(c, call, d.past[i]);
    }
    NothingIsHanded(c.past, d.past);
  }

  lemma EndedHasNoActions(c: Conn)
    requires Inv(c) && c.state.Closed?
    ensures c.actions == []
  {
    hide InOrder, PathOk, Flows, NoRecords;
  }

  lemma HandedIsPending(c: Conn, call: Call, m: Moment)
    requires Causes(c, call, m) && m.Handed?
    ensures m.actions == c.actions
  {
  }

  lemma {:induction false} NothingIsHanded(h: seq<Moment>, k: seq<Moment>)
    requires h <= k && forall i | |h| <= i < |k| && k[i].Handed? :: k[i].actions == []
    ensures HandedOut(k) == HandedOut(h)
    decreases |k|
  {
    if |h| == |k| {
      assert h == k;
    } else {
      NothingIsHanded(h, k[..|k| - 1]);
    }
  }

  ghost predicate NoneDrops(c: Conn, calls: seq<Call>)
    requires Inv(c)
  {
    forall i | 0 <= i < |calls| :: !Drops(Run(c, calls[..i]), calls[i])
  }

  lemma NoneDropsNext(c: Conn, calls: seq<Call>, call: Call)
    requires Inv(c)
    ensures NoneDrops(c, calls + [call]) <==> NoneDrops(c, calls) && !Drops(Run(c, calls), call)
  {
    hide Inv, Drops, Run;
    var all := calls + [call];
    assert all[..|calls|] == calls && all[|calls|] == call;
    forall i | 0 <= i < |calls|
      ensures all[..i] == calls[..i] && all[i] == calls[i]
    {
    }
  }

  /** Over every run: no action is lost if and only if no call of it ends the connection with actions pending. */
  lemma {:induction false} NothingIsLostExactly(c: Conn, calls: seq<Call>)
    requires Inv(c) && !c.state.Closed?
    ensures NothingLost(Run(c, calls)) <==> NoneDrops(c, calls)
    decreases |calls|
  {
    if calls == [] {
      hide Inv, Step, NothingLost;
      WhenActionsAreLost(c, CallDrain);
    } else {
      hide Inv, Step, Run, NothingLost, Drops, NoneDrops;
      var front, call := calls[..|calls| - 1], calls[|calls| - 1];
      assert calls == front + [call];
      NothingIsLostExactly(c, front);
      NoneDropsNext(c, front, call);
      RunGrows(c, front, call);
      var d := Run(c, front);
      if d.state.Closed? {
        EndedLosesNoMore(d, call);
        EndedDropsNothing(d, call);
      } else {
        WhenActionsAreLost(d, call);
      }
    }
  }

  lemma EndedDropsNothing(c: Conn, call: Call)
    requires Inv(c) && c.state.Closed?
    ensures !Drops(c, call)
  {
    hide Inv;
    EndedHasNoActions(c);
  }

  lemma LifecycleStep(c: Conn, call: Call)
    requires c.flow.Valid() && call.CallLifecycleTimer?
    ensures Step(c, call) == LifecycleFired(c, call.kind, call.at)
  {
  }

  /** A run that loses the close: the idle timeout passes, then the drain timeout, and no driver looks in between. */
  lemma TheCloseIsLost(config: Config, peer: Endpoint)
    requires 0 < config.idleTimeout
    ensures Inv(NewConn(config, peer))
    ensures var idle := config.idleTimeout;
            var calls := [CallNextLifecycleTimer(0), CallLifecycleTimer(IdleTimer, idle),
                          CallLifecycleTimer(ClosingTimer, idle + config.drainTimeout)];
            var c := Run(NewConn(config, peer), calls);
            c.state.Closed? && Emitted(c.past) == [Close] && HandedOut(c.past) == [] && c.actions == []
  {
    NewConnIsOk(config, peer);
    hide Inv, Step, AllCleared, Emitted, HandedOut;
    var idle, start := config.idleTimeout, NewConn(config, peer);
    var a, b := CallNextLifecycleTimer(0), CallLifecycleTimer(IdleTimer, idle);
    var e := CallLifecycleTimer(ClosingTimer, idle + config.drainTimeout);
    RunEmpty(start);
    RunGrows(start, [], a);
    RunGrows(start, [] + [a], b);
    RunGrows(start, [] + [a] + [b], e);
    assert [] + [a] + [b] + [e] == [a, b, e];
    AskStep(start, 0);
    var c1 := start.(lastActivity := Some(0));
    LifecycleStep(c1, b);
    var c2 := LifecycleFired(c1, IdleTimer, idle);
    LifecycleStep(c2, e);
    assert c2.past == [] + [Did(Close)];
    EmittedNext([], Did(Close));
    NothingEmitted();
  }

  lemma AskStep(c: Conn, at: int)
    requires c.flow.Valid()
    ensures Step(c, CallNextLifecycleTimer(at)) == LifecycleAsked(c, at)
  {
  }

  lemma NothingEmitted()
    ensures Emitted([]) == [] && HandedOut([]) == []
  {
  }
}
