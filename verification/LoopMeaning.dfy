/**
 * What the calls of the connection loop do to keys, packet number spaces, queues and the round trip estimate, said with
 * the fields of the state alone.
 */
module LoopMeaning {
  import opened Common
  import opened Frames
  import opened LoopCauses
  import opened LoopHistory
  import opened LoopInvariant
  import opened LoopOutcomes
  import opened LoopSpec
  import opened LoopState
  import opened Recovery
  import opened RecoveryMeaning
  import opened SentRecords
  import AckRanges
  import FC = FlowControl
  import PayloadBudget
  import PV = PathValidation
  import Rtt

  // ---------------------------------------------------------------- the start

  /**
   * A new connection is open, knows its peer, has sent, received and measured nothing, looks at TLS before anything
   * else, and has its keys and limits from its configuration.
   */
  lemma StartExactly(config: Config, peer: Endpoint)
    ensures var c := NewConn(config, peer);
            && c.config == config && c.state == Active && c.peer == peer && c.keys == config.keys
            && !c.confirmed && c.dirty && !c.rtt.hasSample && c.closedAt == None && c.lastActivity == None
            && c.actions == [] && c.past == []
            && (forall s :: c.books.Get(s) == SpaceState([], 0, {}, [], None))
            && c.books.recovery == [] && c.books.ranges == []
            && c.flow == FC.Flow(map[], config.streamMaxData, config.bidiLimit, config.uniLimit, false, false,
                                 config.connectionMax, 0)
            && c.path == PV.Path(config.server, config.addressValidated, 0, 0, false, None, false)
  {
    forall s
      ensures NewConn(config, peer).books.Get(s) == NewSpace
    {
    }
  }

  // ---------------------------------------------------------------- keys

  /** The keys of a packet number space have been thrown away. */
  ghost predicate Gone(keys: Keys, s: Space) {
    (s == InitialSpace && keys.initialGone) || (s == HandshakeSpace && keys.handshakeGone)
    || (s == AppSpace && keys.appGone)
  }

  /** A space with nothing left in it but its next packet number. */
  ghost predicate IsEmpty(st: SpaceState) {
    st.queue == [] && st.received == {} && st.sent == [] && st.largest == None
  }

  lemma SweptExactly(b: Books, keys: Keys, s: Space)
    ensures var x, y := b.Get(s), Swept(b, keys).Get(s);
            if Gone(keys, s) then IsEmpty(y) && y.next == x.next else y == x
  {
  }

  /** The challenge for the peer's address is due: TLS is ready for application data and so is the loop. */
  ghost predicate ChallengeIsDue(c: Conn, keys: Keys, tls: Option<Tls>) {
    && c.path.pending.Some? && !c.path.queued && tls.Some? && keys.oneRttSend
    && tls.value.confirmed && tls.value.applicationKeys && tls.value.scheduleReady
  }

  /**
   * A refresh. If TLS has moved since the last one, handshake keys end the Initial space for good, application keys
   * allow application data for good, and the spaces whose keys are gone are emptied; the challenge for the peer's
   * address joins the application queue when it is due; nothing else changes.
   */
  lemma RefreshedExactly(c: Conn, tls: Option<Tls>)
    ensures var d := Refreshed(c, tls);
            var looks := c.dirty && tls.Some?;
            && d == c.(keys := d.keys, confirmed := d.confirmed, books := d.books, dirty := false,
                       path := d.path, past := d.past)
            && d.confirmed == (if looks then tls.value.confirmed else c.confirmed)
            && d.keys == Keys(c.keys.initialGone || (looks && tls.value.handshakeKeys), c.keys.handshakeGone,
                              c.keys.appGone, c.keys.oneRttSend || (looks && tls.value.applicationKeys))
            && (d.path.queued <==> c.path.queued || ChallengeIsDue(c, d.keys, tls))
            && d.path.pending == c.path.pending && d.path.server == c.path.server
    ensures forall s ::
              var d := Refreshed(c, tls);
              var x, y := c.books.Get(s), d.books.Get(s);
              var due := if s == AppSpace && ChallengeIsDue(c, d.keys, tls)
                         then [PathChallenge(c.path.pending.value)] else [];
              if c.dirty && Gone(d.keys, s) then y.next == x.next && y.queue == due && IsEmpty(y.(queue := []))
              else y == x.(queue := x.queue + due)
  {
    hide Swept;
    var before := if c.dirty then Observed(c, tls) else c;
    RefreshQueuesTheChallenge(c, tls);
    RefreshFrames(c, tls);
    forall s
      ensures var x, y := c.books.Get(s), before.books.Get(s);
              if c.dirty && Gone(before.keys, s) then IsEmpty(y) && y.next == x.next else y == x
    {
      SweptExactly(c.books, before.keys, s);
    }
    assert forall q: seq<Frame> :: q + [] == q;
    assert forall q: seq<Frame> :: [] + q == q;
  }

  lemma RefreshFrames(c: Conn, tls: Option<Tls>)
    ensures var d := Refreshed(c, tls);
            d == c.(keys := d.keys, confirmed := d.confirmed, books := d.books, dirty := d.dirty,
                    path := d.path, past := d.past)
  {
    hide Swept, Enqueue, PV.Step;
  }

  // ---------------------------------------------------------------- closing

  /**
   * A connection that closes or starts to drain says so once, notes the time, and empties every packet number space;
   * streams, keys and round trip estimate stay as they are.
   */
  lemma ClosingExactly(c: Conn, at: int)
    requires c.state.Active?
    ensures var d := ToClosing(c, at);
            && d == c.(state := Closing, closedAt := Some(at), books := d.books,
                       actions := c.actions + [Close], past := c.past + [Did(Close)])
            && ToDraining(c, at) == d.(state := Draining)
    ensures forall s ::
              var x, y := c.books.Get(s), ToClosing(c, at).books.Get(s); IsEmpty(y) && y.next == x.next
    ensures NoRecords(ToClosing(c, at).books)
  {
    hide Keep, KeepRanges;
    AllClearedIsEmpty(c.books);
  }

  lemma AllClearedIsEmpty(b: Books)
    ensures NoRecords(AllCleared(b))
    ensures forall s :: var x, y := b.Get(s), AllCleared(b).Get(s); IsEmpty(y) && y.next == x.next
  {
    AllClearedHasNone(b);
    hide Keep, KeepRanges;
  }

  lemma AllClearedHasNone(b: Books)
    ensures AllCleared(b).recovery == [] && AllCleared(b).ranges == []
  {
    hide KeepRanges;
    var rec := AllCleared(b).recovery;
    if rec != [] {
      var p := rec[0];
      var b1 := Cleared(b, InitialSpace);
      var b2 := Cleared(b1, HandshakeSpace);
      KeptMembers(b.recovery, InitialSpace, p);
      KeptMembers(b1.recovery, HandshakeSpace, p);
      KeptMembers(b2.recovery, AppSpace, p);
    }
    NoRangesLeft(b);
  }

  lemma NoRangesLeft(b: Books)
    ensures AllCleared(b).ranges == []
  {
    hide Keep;
    var b1 := Cleared(b, InitialSpace);
    var b2 := Cleared(b1, HandshakeSpace);
    var ranges := AllCleared(b).ranges;
    if ranges != [] {
      KeptRangesMembers(b2.ranges, AppSpace, 0);
      var i :| 0 <= i < |b2.ranges| && b2.ranges[i] == ranges[0];
      KeptRangesMembers(b1.ranges, HandshakeSpace, i);
      var j :| 0 <= j < |b1.ranges| && b1.ranges[j] == ranges[0];
      KeptRangesMembers(b.ranges, InitialSpace, j);
    }
  }

  // ---------------------------------------------------------------- the round trip

  /**
   * Which sample an ACK frame gives: the time since the highest numbered packet waited for that it names, unless the
   * clock went back; the peer's delay counts for application data alone.
   */
  lemma AckMeasures(c: Conn, s: Space, ack: AckFrame, at: int)
    requires Agree(c.books)
    ensures var d, rec := AckTaken(c, s, ack, at), c.books.recovery;
            var delay := if s == AppSpace then AckDelay(ack.delay, c.config.ackDelayExponent) else 0;
            && ((forall i | 0 <= i < |rec| && IsWaiting(rec[i], s) :: rec[i].number !in AckRanges.Expand(ack))
                ==> d.rtt == c.rtt)
            && (forall i | 0 <= i < |rec| && IsMeasured(rec, s, ack, i) ::
                  if at < rec[i].sentAt then d.rtt == c.rtt
                  else d.rtt == Rtt.Update(
                         c.rtt, Rtt.Sample(at - rec[i].sentAt, delay, c.config.maxAckDelay, c.confirmed)))
  {
    hide AckApplied, Rtt.Update, AckDelay, AckRanges.Expand, SampleOf, AckTaken, Agree, IsMeasured;
    var rec, acked := c.books.recovery, AckApplied(c.books, s, ack).acked;
    EstimateIsMeasured(c, s, ack, at);
    SampleExactly(c.books, s, ack);
    forall i | 0 <= i < |rec| && IsMeasured(rec, s, ack, i)
      ensures SampleOf(rec, s, acked) == Some(rec[i])
    {
      MeasuredIsSampled(c.books, s, ack, i);
    }
  }

  lemma EstimateIsMeasured(c: Conn, s: Space, ack: AckFrame, at: int)
    ensures AckTaken(c, s, ack, at).rtt == Measured(c, s, AckApplied(c.books, s, ack).acked, ack, at)
  {
    hide AckApplied, Measured, Resolved, RangesOf, Tolds;
  }

  lemma MeasuredIsSampled(b: Books, s: Space, ack: AckFrame, i: nat)
    requires Agree(b) && IsMeasured(b.recovery, s, ack, i)
    ensures SampleOf(b.recovery, s, AckApplied(b, s, ack).acked) == Some(b.recovery[i])
  {
    hide AckApplied, AckRanges.Expand, SampleOf, Agree;
    SampleExactly(b, s, ack);
    var p := SampleOf(b.recovery, s, AckApplied(b, s, ack).acked);
    var k :| 0 <= k < |b.recovery| && b.recovery[k] == p.value;
    OneOfANumber(b, s, i, k);
  }

  lemma OneOfANumber(b: Books, s: Space, i: nat, k: nat)
    requires Agree(b) && i < |b.recovery| && k < |b.recovery|
    requires b.recovery[i].space == s == b.recovery[k].space && b.recovery[i].number == b.recovery[k].number
    ensures i == k
  {
  }

  /** Of the packets waited for that the frame names, the highest numbered. */
  ghost predicate IsMeasured(rec: seq<RecoveryPacket>, s: Space, ack: AckFrame, i: int) {
    && 0 <= i < |rec| && IsWaiting(rec[i], s) && rec[i].number in AckRanges.Expand(ack)
    && forall j | 0 <= j < |rec| && IsWaiting(rec[j], s) && rec[j].number in AckRanges.Expand(ack) ::
         rec[j].number <= rec[i].number
  }

  // ---------------------------------------------------------------- the recovery timer

  /**
   * The recovery timer of a live space: what it declares lost, in terms of the round trip estimate and the packets on
   * record, is what it returns, what the streams are told and what is no longer awaited; the deadline it returns is
   * that of the packets that are left.
   */
  lemma TimerExactly(c: Conn, s: Space, now: int, tls: Option<Tls>)
    requires Inv(c) && c.state.Active? && !Gone(Refreshed(c, tls).keys, s)
    ensures var b, d, r := Refreshed(c, tls), TimerFired(c, s, now, tls), TimerResult(c, s, now, tls);
            var lossDelay, probe := LossDelay(b.rtt), ProbeDelay(b.rtt, s, b.confirmed, b.config.maxAckDelay);
            && d.past == b.past + seq(|r.0|, i requires 0 <= i < |r.0| => Told(s, r.0[i], false))
            && d.books.recovery == MarkAll(b.books.recovery, s, r.0, Lost)
            && (forall x :: x in r.0 <==> IsGivenUp(b.books, s, lossDelay, probe, now, x)) && Ascending(r.0)
            && IsDeadline(b.books, s, lossDelay, probe, now, r.1)
  {
    hide Refreshed, TimerLosses, NextDeadline, IsGivenUp, IsDeadline, LossDelay, ProbeDelay, MarkAll, MarkSent,
      Resolved, RangesOf, Inv, Agree;
    RefreshedKeeps(c, tls);
    var b := Refreshed(c, tls);
    InvMeans(b);
    RefreshStaysInside(c, tls);
    var lossDelay, probe := LossDelay(b.rtt), ProbeDelay(b.rtt, s, b.confirmed, b.config.maxAckDelay);
    forall x: nat
      ensures x in TimerLosses(b.books, s, lossDelay, probe, now) <==> IsGivenUp(b.books, s, lossDelay, probe, now, x)
    {
      TimerDeclaresExactly(b.books, s, lossDelay, probe, now, x);
    }
    DeadlineExactly(b.books, s, lossDelay, probe, now);
    TimerLossesAreRetirable(b.books, s, lossDelay, probe, now);
  }

  /** The timer of a space as `next_recovery_timer` sees it. */
  lemma TimerInExactly(c: Conn, s: Space)
    ensures if Gone(c.keys, s) then TimerIn(c, s) == None
            else IsTimer(c.books.recovery, s, c.books.Get(s).largest, LossDelay(c.rtt),
                         ProbeDelay(c.rtt, s, c.confirmed, c.config.maxAckDelay), TimerIn(c, s))
  {
    hide TimerFor, IsTimer, LossDelay, ProbeDelay;
    TimerMeaning(c.books.recovery, s, c.books.Get(s).largest, LossDelay(c.rtt),
                 ProbeDelay(c.rtt, s, c.confirmed, c.config.maxAckDelay));
  }

  /** A space that is gone has no timer: it is emptied, nothing is lost and no time is set. */
  lemma GoneHasNoTimer(c: Conn, s: Space, now: int, tls: Option<Tls>)
    requires c.state.Active? && Gone(Refreshed(c, tls).keys, s)
    ensures var b, d := Refreshed(c, tls), TimerFired(c, s, now, tls);
            && TimerResult(c, s, now, tls) == ([], None) && d == b.(books := d.books)
            && IsEmpty(d.books.Get(s)) && forall t | t != s :: d.books.Get(t) == b.books.Get(t)
  {
    hide Refreshed, Keep, KeepRanges;
    RefreshStaysInside(c, tls);
  }

  /** Nor is anything sent for such a space: an acknowledgement or a flush that comes to it only empties it. */
  lemma GoneIsDropped(c: Conn, s: Space, at: int, tls: Option<Tls>, assembled: Option<u64>, env: SendEnv)
    requires c.state.Active?
    ensures var b, d := Refreshed(c, tls), AckSent(c, s, at, tls, assembled);
            Gone(b.keys, s) ==>
              && d == b.(books := d.books) && IsEmpty(d.books.Get(s))
              && forall t | t != s :: d.books.Get(t) == b.books.Get(t)
    ensures var d := SpaceFlushed(c, s, at, tls, env);
            Gone(c.keys, s) && c.books.Get(s).queue != [] ==>
              && d == c.(books := d.books) && IsEmpty(d.books.Get(s))
              && forall t | t != s :: d.books.Get(t) == c.books.Get(t)
  {
    hide Refreshed, Keep, KeepRanges, HeldBack, Sendable, PacketSent, AckFor, ToClosing, PV.Allows, PayloadBudget.Front;
    RefreshStaysInside(c, tls);
    PayloadBudget.FrontIsLongest(c.books.Get(s).queue, c.config.maxPayload);
  }

  // ---------------------------------------------------------------- what leaves is recorded

  /** Some frame asks for an acknowledgement: anything but padding and acknowledgements does. */
  ghost predicate Asks(frames: seq<Frame>) {
    exists i :: 0 <= i < |frames| && !(frames[i].Padding? || frames[i].Ack?)
  }

  /** A packet that leaves is in both records, under its number, with the time and whether it asks for an answer. */
  lemma LeavingIsRecorded(c: Conn, s: Space, at: int, tls: Option<Tls>, env: SendEnv) returns (places: seq<nat>)
    requires c.state.Active?
    ensures var d := SpaceFlushed(c, s, at, tls, env);
            d.actions != c.actions && d.state.Active? ==>
              var frames, n := d.actions[|d.actions| - 1].frames, c.books.Get(s).next;
              && d.books.recovery == c.books.recovery + [RecoveryPacket(s, n, at, Asks(frames), Outstanding)]
              && d.books.Get(s).sent == c.books.Get(s).sent + [SentPacket(n, Asks(frames), Outstanding)]
              && d.books.Get(s).received == c.books.Get(s).received && d.books.Get(s).largest == c.books.Get(s).largest
              && (forall t | t != s :: d.books.Get(t) == c.books.Get(t))
              && (if forall k | 0 <= k < |frames| :: !frames[k].Stream? then d.books.ranges == c.books.ranges else
                    && |d.books.ranges| == |c.books.ranges| + 1 && c.books.ranges <= d.books.ranges
                    && var e := d.books.ranges[|c.books.ranges|];
                       e.space == s && e.number == n && AreStreamRanges(frames, e.ranges, places))
  {
    hide PayloadBudget.Front, PV.Emitted, SpaceFlushed, Sent, StreamRanges, AreStreamRanges;
    var d, queue := SpaceFlushed(c, s, at, tls, env), c.books.Get(s).queue;
    FlushedBySending(c, s, at, tls, env);
    places := [];
    if d.actions != c.actions && d.state.Active? {
      var taken := PayloadBudget.Front(queue, c.config.maxPayload);
      PayloadBudget.FrontIsLongest(queue, c.config.maxPayload);
      var frames := queue[..taken];
      AsksExactly(frames);
      places := SentIsRecorded(c.books, s, at, AckEliciting(frames), frames);
      hide AckEliciting;
      assert d.actions == c.actions + [Datagram(s, c.books.Get(s).next, frames, env.assembled.value)];
    }
  }

  lemma AsksExactly(frames: seq<Frame>)
    ensures AckEliciting(frames) <==> Asks(frames)
  {
  }

  /** A packet that carries only an acknowledgement is on record too, and is not waited for. */
  lemma AckIsNotAwaited(c: Conn, s: Space, at: int, tls: Option<Tls>, assembled: Option<u64>)
    requires c.state.Active?
    ensures var b, d := Refreshed(c, tls), AckSent(c, s, at, tls, assembled);
            d.actions != b.actions && d.state.Active? ==>
              var n := b.books.Get(s).next;
              && d.books.recovery == b.books.recovery + [RecoveryPacket(s, n, at, false, Outstanding)]
              && d.books.Get(s) ==
                 b.books.Get(s).(next := n + 1, sent := b.books.Get(s).sent + [SentPacket(n, false, Outstanding)])
              && (forall t | t != s :: d.books.Get(t) == b.books.Get(t)) && d.books.ranges == b.books.ranges
              && d.lastActivity == c.lastActivity
  {
    hide Refreshed, AckFor, Cleared, Sent, StreamRanges, AreStreamRanges, PV.Allows, PV.Emitted;
    RefreshedExactly(c, tls);
    var b := Refreshed(c, tls);
    var frames := [Ack(AckFor(b.books.Get(s).received))];
    var places := SentIsRecorded(b.books, s, at, false, frames);
    assert b.books.Get(s).queue[0..] == b.books.Get(s).queue;
  }

  // ---------------------------------------------------------------- the amplification limit

  /**
   * A datagram may go to the peer exactly if the address is validated or not the loop's to validate, or with it at most
   * three bytes have left for each byte that came since the address was adopted, or the counters no longer tell.
   */
  lemma LimitExactly(c: Conn, size: u64)
    requires Inv(c)
    ensures PV.Allows(c.path, size) <==>
            || !c.config.server || c.path.validated
            || SentSince(c.past) + size <= 3 * ReceivedSince(c.past)
            || 0x5555_5555_5555_5555 < ReceivedSince(c.past)
  {
    hide InOrder, ActionsOk, Flows, NoRecords, PathEvents, ReceivedSince, SentSince, PV.Run, PV.Allows;
    PV.EveryRunIsMetered(c.config.server, c.config.addressValidated, PathEvents(c.past));
    PV.AllowsExactly(c.path, PV.Meter(ReceivedSince(c.past), SentSince(c.past)), size);
  }

  lemma {:induction false} ArrivedGrows(h: seq<Moment>, k: seq<Moment>)
    requires h <= k
    ensures Arrived(h) <= Arrived(k)
    decreases |k|
  {
    if |h| == |k| {
      assert h == k;
    } else {
      ArrivedGrows(h, k[..|k| - 1]);
    }
  }

  /** A new packet from an address the loop accepts counts in full towards what may be sent; no other counts at all. */
  lemma PacketIsCounted(c: Conn, p: Parsed, from: Endpoint, size: u64, at: int, env: PacketEnv)
    requires c.state.Active?
    ensures var d := Processed(c, p, from, size, at, env);
            var counts := p.number !in c.books.Get(p.space).received
                       && (from == c.peer || (!c.config.migrationDisabled && (!c.config.server || env.token.Some?)));
            Arrived(d.past) == Arrived(c.past) + if counts then size else 0
  {
    hide Arrived, Since, PeerMet, FramesTaken, WithReceived, PV.Step;
    var k := Packet(p, size, env);
    var w := Why([k], true, {Confirms(env.after)}, true, false, None);
    var c0 := Noticed(c, p.space, p.number);
    PathNext(c.past, Saw(p.space, p.number));
    PeerMetSince(c0, from, at, k, w);
    PeerIsMet(c0, from, at, env.token, env.before);
    var c1 := PeerMet(c0, from, at, env.token, env.before);
    SinceIsExact(c0, c1, w);
    if c1.state.Active? {
      var c2 := CountReceived(c1, size, at);
      PathNext(c1.past, OnPath(PV.Arrival(size)));
      FramesTakenSince(c2, k, at, w);
      SinceIsExact(c2, FramesTaken(c2, p, at, env), w);
    }
  }

  lemma SinceIsExact(c: Conn, d: Conn, w: Why)
    requires Since(c, d, w, 0)
    ensures Arrived(d.past) == Arrived(c.past)
  {
    hide Arrived, Permits;
    ArrivedGrows(c.past, d.past);
  }

  // ---------------------------------------------------------------- queues

  /** What TLS hands out for one space, in order. */
  ghost function Offered(items: seq<CryptoItem>, s: Space): seq<Frame> {
    if items == [] then [] else
      var k := items[|items| - 1];
      Offered(items[..|items| - 1], s) + if k.space == s && k.frames.Some? then k.frames.value else []
  }

  lemma {:induction false} OfferedFirst(item: CryptoItem, rest: seq<CryptoItem>, s: Space)
    ensures Offered([item] + rest, s) ==
            (if item.space == s && item.frames.Some? then item.frames.value else []) + Offered(rest, s)
  {
    if rest == [] {
      assert [item] + rest == [item] && [item][..0] == [];
    } else {
      var n := |rest| - 1;
      OfferedFirst(item, rest[..n], s);
      assert ([item] + rest)[..n + 1] == [item] + rest[..n];
    }
  }

  /** What TLS hands out joins the queues of the live spaces, in order, behind what is there; nothing else changes. */
  lemma {:induction false} PumpingQueues(c: Conn, items: seq<CryptoItem>, clock: int)
    requires c.state.Active?
    ensures var d := ItemsPumped(c, items, clock);
            d.state.Active? ==>
              && d == c.(books := d.books) && d.books.recovery == c.books.recovery && d.books.ranges == c.books.ranges
              && forall s :: d.books.Get(s) == c.books.Get(s).(
                   queue := c.books.Get(s).queue + if Gone(c.keys, s) then [] else Offered(items, s))
    decreases items
  {
    hide AllCleared, Offered;
    assert forall q: seq<Frame> :: q + [] == q;
    if items == [] {
      OfferedNothing();
    } else {
      var k, rest := items[0], items[1..];
      assert items == [k] + rest;
      forall s
        ensures Offered(items, s) == (if k.space == s && k.frames.Some? then k.frames.value else []) + Offered(rest, s)
      {
        OfferedFirst(k, rest, s);
      }
      if c.keys.Discarded(k.space) {
        PumpingQueues(c, rest, clock);
        assert forall s | !Gone(c.keys, s) :: Offered(items, s) == Offered(rest, s);
      } else if k.frames.Some? {
        var d := c.(books := Enqueue(c.books, k.space, k.frames.value));
        PumpingQueues(d, rest, clock);
        forall s
          ensures d.books.Get(s).queue + Offered(rest, s) == c.books.Get(s).queue + Offered(items, s)
             || Gone(c.keys, s)
        {
        }
      }
    }
  }

  lemma OfferedNothing()
    ensures forall s :: Offered([], s) == []
  {
  }

  /** The answers to the challenges in a packet, in order. */
  ghost function Replies(frames: seq<Frame>): seq<Frame> {
    if frames == [] then [] else
      var f := frames[|frames| - 1];
      Replies(frames[..|frames| - 1]) + if f.PathChallenge? then [PathResponse(f.pathData)] else []
  }

  lemma {:induction false} PathFramesQueue(c: Conn, frames: seq<Frame>)
    ensures var d := PathFrames(c, frames);
            forall s :: d.books.Get(s) == c.books.Get(s).(
              queue := c.books.Get(s).queue + if s == AppSpace then Replies(frames) else [])
  {
    hide PV.Step;
    assert forall q: seq<Frame> :: q + [] == q;
    if frames != [] {
      PathFramesQueue(c, frames[..|frames| - 1]);
    }
  }

  lemma {:induction false} OtherFoldsQueueNothing(c: Conn, s: Space, frames: seq<WireFrame>, at: int)
    ensures forall t :: AckFrames(c, s, frames, at).books.Get(t).queue == c.books.Get(t).queue
    ensures CreditFrames(c, frames).books == c.books
  {
    hide AckApplied, Measured, Resolved, RangesOf, Tolds, FC.RaiseData, FC.RaiseStreamData, FC.RaiseStreams;
    if frames != [] {
      var n := |frames| - 1;
      OtherFoldsQueueNothing(c, s, frames[..n], at);
      if frames[n].Ack? {
        AckLeaves(AckFrames(c, s, frames[..n], at).books, s, frames[n].ack);
      }
    }
  }

  /**
   * What the frames of a packet put into the queues: a RETIRE_CONNECTION_ID for each connection ID the packet retires
   * and an answer for each challenge in it, in order, behind the application frames that wait already.
   */
  lemma RecordedQueues(c: Conn, p: Parsed, retired: seq<nat>, at: int)
    ensures var d := Recorded(c, p, retired, at);
            && (forall s | s != AppSpace :: d.books.Get(s).queue == c.books.Get(s).queue)
            && |d.books.app.queue| == |c.books.app.queue| + |retired| + |Replies(p.frames)|
            && c.books.app.queue <= d.books.app.queue
            && (forall i | 0 <= i < |retired| ::
                  d.books.app.queue[|c.books.app.queue| + i] == RetireConnectionId(retired[i]))
            && d.books.app.queue[|c.books.app.queue| + |retired|..] == Replies(p.frames)
  {
    hide PathFrames, AckFrames, CreditFrames, Replies;
    var c1 := RetirementsQueued(c, retired);
    PathFramesQueue(c1, p.frames);
    var c2 := PathFrames(c1, p.frames);
    OtherFoldsQueueNothing(c2, p.space, p.frames, at);
    OtherFoldsQueueNothing(AckFrames(c2, p.space, p.frames, at), p.space, p.frames, at);
    var d := Recorded(c, p, retired, at);
    assert d.books.Get(AppSpace).queue == c.books.Get(AppSpace).queue + Retirements(retired) + Replies(p.frames);
  }

  // ---------------------------------------------------------------- datagrams

  /** The chunk is a packet that is taken, and the connection stays open and can protect packets afterwards. */
  ghost predicate IsTaken(c: Conn, k: Chunk, from: Endpoint, at: int, d: Conn) {
    && k.LongPacket? && !Gone(c.keys, k.space) && k.parsed.Some? && k.env.protectorsRefreshed
    && d == Processed(c, PacketIn(k.space, k.parsed.value), from, k.size, at, k.env) && d.state.Active?
  }

  /**
   * The chunk is a packet of a space that is gone: whatever the space still holds is dropped, and nothing else happens.
   */
  ghost predicate IsPassedOver(c: Conn, k: Chunk, d: Conn) {
    && k.LongPacket? && Gone(c.keys, k.space) && d == c.(books := d.books)
    && IsEmpty(d.books.Get(k.space)) && d.books.Get(k.space).next == c.books.Get(k.space).next
    && forall s | s != k.space :: d.books.Get(s) == c.books.Get(s)
  }

  /** Zeros end a datagram quietly. */
  ghost predicate IsTrailing(k: Chunk) {
    k.Unreadable? && k.onlyZeros
  }

  /**
   * The packets of a long-header datagram are taken in order. The first chunk that is neither taken nor of a space that
   * is gone ends the datagram: trailing zeros leave the connection as it is, anything else closes or drains it.
   */
  lemma {:induction false} ChunksInTurn(c: Conn, chunks: seq<Chunk>, from: Endpoint, at: int)
    returns (states: seq<Conn>)
    requires c.state.Active?
    ensures 0 < |states| <= |chunks| + 1 && states[0] == c && forall i | 0 <= i < |states| :: states[i].state.Active?
    ensures forall i | 0 <= i < |states| - 1 ::
              || IsTaken(states[i], chunks[i], from, at, states[i + 1])
              || IsPassedOver(states[i], chunks[i], states[i + 1])
    ensures var n, d := |states| - 1, ChunksTaken(c, chunks, from, at);
            if n == |chunks| || IsTrailing(chunks[n]) then d == states[n]
            else !d.state.Active? && !(chunks[n].LongPacket? && Gone(states[n].keys, chunks[n].space))
    decreases chunks
  {
    hide Processed, Cleared, IsTaken, IsPassedOver, ToClosing;
    states := [c];
    ClosingIsNotActive(c, at);
    if chunks != [] && chunks[0].LongPacket? {
      var k, rest := chunks[0], chunks[1..];
      if c.keys.Discarded(k.space) {
        var d := ClearedSpace(c, k.space);
        GoneIsPassedOver(c, k);
        var more := ChunksInTurn(d, rest, from, at);
        states := [c] + more;
      } else if k.parsed.Some? {
        var d := Processed(c, PacketIn(k.space, k.parsed.value), from, k.size, at, k.env);
        if d.state.Active? {
          ClosingIsNotActive(d, at);
          if k.env.protectorsRefreshed {
            assert IsTaken(c, k, from, at, d) by {
              TakenMeans(c, k, from, at);
            }
            var more := ChunksInTurn(d, rest, from, at);
            states := [c] + more;
          }
        }
      }
    }
  }

  lemma TakenMeans(c: Conn, k: Chunk, from: Endpoint, at: int)
    requires k.LongPacket? && !c.keys.Discarded(k.space) && k.parsed.Some? && k.env.protectorsRefreshed
    requires Processed(c, PacketIn(k.space, k.parsed.value), from, k.size, at, k.env).state.Active?
    ensures IsTaken(c, k, from, at, Processed(c, PacketIn(k.space, k.parsed.value), from, k.size, at, k.env))
  {
    hide Processed;
  }

  lemma ClosingIsNotActive(c: Conn, at: int)
    ensures !ToClosing(c, at).state.Active?
  {
  }

  lemma GoneIsPassedOver(c: Conn, k: Chunk)
    requires k.LongPacket? && c.keys.Discarded(k.space)
    ensures IsPassedOver(c, k, ClearedSpace(c, k.space))
  {
    hide Keep, KeepRanges;
  }

  /**
   * A short-header datagram: a stateless reset drains the connection, any other packet that cannot be read closes it.
   */
  lemma ShortDatagramExactly(c: Conn, d: Inbound, from: Endpoint, at: int, tls: Option<Tls>)
    requires c.state.Active? && d.ShortDatagram?
    ensures var b, e := Refreshed(c, tls), DatagramTaken(c, d, from, at, tls);
            if Gone(b.keys, AppSpace) then
              && e == b.(books := e.books) && IsEmpty(e.books.app) && e.books.app.next == b.books.app.next
              && e.books.initial == b.books.initial && e.books.handshake == b.books.handshake
            else if d.parsed.None? then
              e.state == (if d.statelessReset then Draining else Closing) && e.actions == c.actions + [Close]
            else
              var p := Parsed(AppSpace, d.parsed.value.number, d.parsed.value.frames);
              e == Processed(b, p, from, d.size, at, d.env)
  {
    hide Processed, AllCleared, Keep, KeepRanges, Refreshed;
    RefreshStaysInside(c, tls);
  }
}
