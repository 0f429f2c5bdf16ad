/**
 * What the connection loop (connection.hpp) works with: its states and actions, the order its books are kept in, what
 * the rest of the system tells it, its timers, and the rules on frames. Everything here is a value.
 */
module LoopState {
  import opened Common
  import opened Frames
  import opened Recovery
  import opened SentRecords
  import opened StreamSend
  import AckRanges
  import FC = FlowControl
  import Rtt

  // ---------------------------------------------------------------- closing

  datatype State = Active | Closing | Draining | Closed

  function Rank(s: State): nat {
    match s
    case Active => 0
    case Closing => 1
    case Draining => 1
    case Closed => 2
  }

  /** What the loop asks its driver to do. */
  datatype Action =
    | Datagram(space: Space, number: nat, frames: seq<Frame>, size: u64)
    | PacketEvent(space: Space, number: nat)
    | Close

  ghost predicate NoClose(log: seq<Action>) {
    forall i | 0 <= i < |log| :: !log[i].Close?
  }

  /** All actions ever emitted: no close while active, afterwards exactly one and nothing behind it. */
  ghost predicate Orderly(state: State, log: seq<Action>) {
    if state.Active? then NoClose(log)
    else log != [] && forall i | 0 <= i < |log| :: log[i].Close? <==> i == |log| - 1
  }

  // ---------------------------------------------------------------- the books of an open connection

  ghost predicate ReceivedFits(b: Books) {
    forall s, n | n in b.Get(s).received :: n <= U64_MAX
  }

  /** Packet numbers sent in a space only ever rise, and the next one is higher still. */
  ghost predicate Rising(b: Books, log: seq<Action>) {
    && (forall i, j | 0 <= i < j < |log| && log[i].Datagram? && log[j].Datagram? && log[i].space == log[j].space ::
          log[i].number < log[j].number)
    && (forall i | 0 <= i < |log| && log[i].Datagram? :: log[i].number < b.Get(log[i].space).next)
  }

  ghost predicate IsPacket(a: Action, s: Space, number: nat) {
    a.Datagram? && a.space == s && a.number == number
  }

  ghost predicate InLog(log: seq<Action>, s: Space, number: nat) {
    exists i :: 0 <= i < |log| && IsPacket(log[i], s, number)
  }

  /** The frames of the packet sent under a number. */
  function FramesIn(log: seq<Action>, s: Space, number: nat): seq<Frame> {
    if log == [] then []
    else if log[0].Datagram? && log[0].space == s && log[0].number == number then log[0].frames
    else FramesIn(log[1..], s, number)
  }

  lemma {:induction false} FramesInLonger(log: seq<Action>, a: Action, s: Space, number: nat)
    ensures InLog(log + [a], s, number) <==> InLog(log, s, number) || IsPacket(a, s, number)
    ensures InLog(log, s, number) ==> FramesIn(log + [a], s, number) == FramesIn(log, s, number)
    ensures !InLog(log, s, number) && IsPacket(a, s, number) ==> FramesIn(log + [a], s, number) == a.frames
  {
    var l := log + [a];
    assert l[|log|] == a;
    assert forall i | 0 <= i < |log| :: l[i] == log[i];
    if log != [] {
      assert l[1..] == log[1..] + [a];
      FramesInLonger(log[1..], a, s, number);
      if IsPacket(log[0], s, number) {
        assert l[0] == log[0];
      } else {
        InLogRest(log, s, number);
        assert l[0] == log[0];
      }
    } else {
      assert l == [a] && l[1..] == [];
    }
  }

  lemma InLogRest(log: seq<Action>, s: Space, number: nat)
    requires log != [] && !IsPacket(log[0], s, number)
    ensures InLog(log, s, number) <==> InLog(log[1..], s, number)
  {
    if i :| 0 <= i < |log| && IsPacket(log[i], s, number) {
      assert log[1..][i - 1] == log[i];
    }
    if i :| 0 <= i < |log| - 1 && IsPacket(log[1..][i], s, number) {
      assert log[i + 1] == log[1..][i];
    }
  }

  /** A tracked packet was sent, and the stream ranges found under its number are those of its frames. */
  ghost predicate TrueRecord(b: Books, log: seq<Action>, s: Space, number: nat) {
    InLog(log, s, number) && FindRanges(b.ranges, s, number) == StreamRanges(FramesIn(log, s, number))
  }

  /** Only packets that were sent are on record or reported. */
  ghost predicate Logged(b: Books, reported: seq<Report>, log: seq<Action>) {
    && (forall s, i | 0 <= i < |b.Get(s).sent| :: TrueRecord(b, log, s, b.Get(s).sent[i].number))
    && (forall k | 0 <= k < |reported| :: InLog(log, reported[k].space, reported[k].number))
  }

  ghost predicate InOrder(b: Books, reported: seq<Report>, log: seq<Action>) {
    && Agree(b) && ReportedOnce(b, reported) && RangesNumbered(b) && ReceivedFits(b)
    && Rising(b, log) && Logged(b, reported, log)
  }

  /** A longer log has everything a shorter one has. */
  lemma LoggedFurther(b: Books, reported: seq<Report>, log: seq<Action>, a: Action)
    requires Logged(b, reported, log)
    ensures Logged(b, reported, log + [a])
  {
    hide StreamRanges, FindRanges, FramesIn, InLog;
    forall s, n: nat
      ensures InLog(log, s, n) ==> InLog(log + [a], s, n)
      ensures TrueRecord(b, log, s, n) ==> TrueRecord(b, log + [a], s, n)
    {
      FramesInLonger(log, a, s, n);
    }
  }

  /** The next number of a space has not been used. */
  lemma NextIsUnused(b: Books, log: seq<Action>, s: Space)
    requires Rising(b, log)
    ensures !InLog(log, s, b.Get(s).next)
  {
  }

  lemma SendingIsLogged(
    b: Books, s: Space, sentAt: int, ackEliciting: bool, frames: seq<Frame>, size: u64,
    reported: seq<Report>, log: seq<Action>)
    requires Logged(b, reported, log) && RangesNumbered(b) && Rising(b, log)
    requires forall t, i | 0 <= i < |b.Get(t).sent| :: b.Get(t).sent[i].number < b.Get(t).next
    ensures Logged(Sent(b, s, sentAt, ackEliciting, frames), reported, log + [Datagram(s, b.Get(s).next, frames, size)])
  {
    hide StreamRanges, FindRanges, FramesIn, InLog, RangesNumbered, Rising;
    var a := Datagram(s, b.Get(s).next, frames, size);
    var c, l := Sent(b, s, sentAt, ackEliciting, frames), log + [a];
    LoggedFurther(b, reported, log, a);
    NextIsUnused(b, log, s);
    FramesInLonger(log, a, s, b.Get(s).next);
    forall t, i | 0 <= i < |c.Get(t).sent|
      ensures TrueRecord(c, l, t, c.Get(t).sent[i].number)
    {
      RangesAreFoundExactly(b, s, sentAt, ackEliciting, frames, t, c.Get(t).sent[i].number);
      if i < |b.Get(t).sent| {
        assert c.Get(t).sent[i] == b.Get(t).sent[i];
        assert TrueRecord(b, l, t, b.Get(t).sent[i].number);
      } else {
        assert t == s && c.Get(t).sent[i].number == b.Get(s).next;
      }
    }
  }

  /** Retiring packets changes no number and reports only packets on record. */
  lemma RetiringIsLogged(b: Books, c: Books, s: Space, numbers: seq<nat>, reported: seq<Report>, log: seq<Action>)
    requires Logged(b, reported, log) && c.ranges == b.ranges
    requires forall t :: |c.Get(t).sent| == |b.Get(t).sent|
    requires forall t, i | 0 <= i < |b.Get(t).sent| :: c.Get(t).sent[i].number == b.Get(t).sent[i].number
    requires forall k | 0 <= k < |numbers| :: IsOutstanding(b.Get(s).sent, numbers[k])
    ensures Logged(c, reported + Tag(s, numbers), log)
  {
    hide InLog, FindRanges, StreamRanges, FramesIn;
    forall t, i | 0 <= i < |c.Get(t).sent|
      ensures TrueRecord(c, log, t, c.Get(t).sent[i].number)
    {
      assert TrueRecord(b, log, t, b.Get(t).sent[i].number);
    }
    forall k | 0 <= k < |numbers|
      ensures InLog(log, s, numbers[k])
    {
      var i :| 0 <= i < |b.Get(s).sent| && b.Get(s).sent[i].number == numbers[k];
      assert TrueRecord(b, log, s, b.Get(s).sent[i].number);
    }
  }

  lemma LaterNumbersStillRise(b: Books, c: Books, log: seq<Action>)
    requires Rising(b, log) && forall s :: b.Get(s).next <= c.Get(s).next
    ensures Rising(c, log)
  {
  }

  /** Nothing is recorded as sent. */
  ghost predicate NoRecords(b: Books) {
    b.recovery == [] && b.ranges == [] && forall s :: b.Get(s).sent == []
  }

  function WithQueue(b: Books, s: Space, queue: seq<Frame>): Books {
    b.Set(s, b.Get(s).(queue := queue))
  }

  function Enqueue(b: Books, s: Space, frames: seq<Frame>): Books {
    WithQueue(b, s, b.Get(s).queue + frames)
  }

  /** Alike but for queues and received numbers. */
  ghost predicate SameRecords(b: Books, c: Books) {
    && c.recovery == b.recovery && c.ranges == b.ranges
    && forall s :: var x, y := b.Get(s), c.Get(s); y.sent == x.sent && y.largest == x.largest && y.next == x.next
  }

  function Retirements(retired: seq<nat>): (r: seq<Frame>)
    ensures |r| == |retired| && forall i | 0 <= i < |retired| :: r[i] == RetireConnectionId(retired[i])
  {
    seq(|retired|, i requires 0 <= i < |retired| => RetireConnectionId(retired[i]))
  }

  /** The books without the spaces whose keys are gone. */
  function Swept(b: Books, keys: Keys): Books {
    var b1 := if keys.Discarded(InitialSpace) then Cleared(b, InitialSpace) else b;
    var b2 := if keys.Discarded(HandshakeSpace) then Cleared(b1, HandshakeSpace) else b1;
    if keys.Discarded(AppSpace) then Cleared(b2, AppSpace) else b2
  }

  function WithReceived(b: Books, s: Space, n: nat): Books {
    b.Set(s, b.Get(s).(received := b.Get(s).received + {n}))
  }

  /** Queues and received numbers are no part of the agreement. */
  lemma SameRecordsSameOrder(b: Books, c: Books, reported: seq<Report>, log: seq<Action>)
    requires InOrder(b, reported, log) && ReceivedFits(c)
    requires SameRecords(b, c)
    ensures InOrder(c, reported, log)
  {
    hide Rising, Project, InLog, FindRanges, StreamRanges, FramesIn;
    LaterNumbersStillRise(b, c, log);
    forall s, i | 0 <= i < |c.Get(s).sent|
      ensures TrueRecord(c, log, s, c.Get(s).sent[i].number)
    {
      assert TrueRecord(b, log, s, b.Get(s).sent[i].number);
    }
    forall s
      ensures SpaceAgrees(c, s)
    {
      assert SpaceAgrees(b, s);
    }
    forall i | 0 <= i < |reported|
      ensures Retired(c, reported[i])
    {
      assert Retired(b, reported[i]);
    }
  }

  lemma QueueKeepsOrder(b: Books, s: Space, queue: seq<Frame>, reported: seq<Report>, log: seq<Action>)
    requires InOrder(b, reported, log)
    ensures InOrder(WithQueue(b, s, queue), reported, log)
  {
    hide Agree, ReportedOnce, RangesNumbered, Rising, Logged;
    var c := WithQueue(b, s, queue);
    assert forall t :: c.Get(t) == if t == s then b.Get(s).(queue := queue) else b.Get(t);
    SameRecordsSameOrder(b, c, reported, log);
  }

  lemma ReceivingKeepsOrder(b: Books, s: Space, n: u64, reported: seq<Report>, log: seq<Action>)
    requires InOrder(b, reported, log)
    ensures InOrder(WithReceived(b, s, n), reported, log)
  {
    hide Agree, ReportedOnce, RangesNumbered, Rising, Logged;
    var c := WithReceived(b, s, n);
    assert forall t :: c.Get(t) == if t == s then b.Get(s).(received := b.Get(s).received + {n}) else b.Get(t);
    SameRecordsSameOrder(b, c, reported, log);
  }

  lemma TrackedIsBelowNext(b: Books, s: Space, i: nat)
    requires Agree(b) && i < |b.Get(s).sent|
    ensures b.Get(s).sent[i].number < b.Get(s).next
  {
    assert SpaceAgrees(b, s);
  }

  /** A packet that goes out under the next number of its space. */
  lemma SendingKeepsOrder(
    b: Books, s: Space, sentAt: int, ackEliciting: bool, frames: seq<Frame>, size: u64,
    reported: seq<Report>, log: seq<Action>)
    requires InOrder(b, reported, log)
    ensures InOrder(
              Sent(b, s, sentAt, ackEliciting, frames), reported, log + [Datagram(s, b.Get(s).next, frames, size)])
  {
    hide Agree, ReportedOnce, RangesNumbered, StreamRanges, Logged;
    forall t, i | 0 <= i < |b.Get(t).sent|
      ensures b.Get(t).sent[i].number < b.Get(t).next
    {
      TrackedIsBelowNext(b, t, i);
    }
    SentKeepsAgreement(b, s, sentAt, ackEliciting, frames, reported);
    RangesAreFoundExactly(b, s, sentAt, ackEliciting, frames, s, 0);
    SendingIsLogged(b, s, sentAt, ackEliciting, frames, size, reported, log);
    var c := Sent(b, s, sentAt, ackEliciting, frames);
    assert forall t :: c.Get(t).received == b.Get(t).received;
  }

  /** An action that is no datagram uses no number. */
  lemma EmittingKeepsOrder(b: Books, reported: seq<Report>, log: seq<Action>, a: Action)
    requires InOrder(b, reported, log) && !a.Datagram?
    ensures InOrder(b, reported, log + [a])
  {
    hide Agree, ReportedOnce, RangesNumbered, ReceivedFits, Logged;
    LoggedFurther(b, reported, log, a);
  }

  lemma {:induction false} KeptRangesMembers(ranges: seq<PacketRanges>, s: Space, i: nat)
    requires i < |KeepRanges(ranges, s)|
    ensures KeepRanges(ranges, s)[i] in ranges && KeepRanges(ranges, s)[i].space != s
  {
    if ranges != [] {
      var first := if ranges[0].space == s then 0 else 1;
      if first <= i {
        KeptRangesMembers(ranges[1..], s, i - first);
      }
    }
  }

  lemma ClearingKeepsOrder(b: Books, s: Space, reported: seq<Report>, log: seq<Action>)
    requires InOrder(b, reported, log)
    ensures InOrder(Cleared(b, s), reported, log)
  {
    hide Agree, ReportedOnce, Keep, KeepRanges, Rising, InLog, FindRanges, StreamRanges, FramesIn;
    ClearedKeepsAgreement(b, s, reported);
    var c := Cleared(b, s);
    LaterNumbersStillRise(b, c, log);
    forall t, i | 0 <= i < |c.Get(t).sent|
      ensures TrueRecord(c, log, t, c.Get(t).sent[i].number)
    {
      assert TrueRecord(b, log, t, b.Get(t).sent[i].number);
      FindKept(b.ranges, s, t, c.Get(t).sent[i].number);
    }
    forall i | 0 <= i < |c.ranges|
      ensures c.ranges[i].number < c.Get(c.ranges[i].space).next
    {
      KeptRangesMembers(b.ranges, s, i);
    }
  }

  lemma NothingIsKept(b: Books)
    ensures NoRecords(Cleared(Cleared(Cleared(b, InitialSpace), HandshakeSpace), AppSpace))
  {
    hide Keep, KeepRanges;
    NoPacketIsKept(b.recovery);
    NoRangeIsKept(b.ranges);
  }

  lemma NoPacketIsKept(rec: seq<RecoveryPacket>)
    ensures Keep(Keep(Keep(rec, InitialSpace), HandshakeSpace), AppSpace) == []
  {
    hide Keep;
    var r1 := Keep(rec, InitialSpace);
    var r2 := Keep(r1, HandshakeSpace);
    var r3 := Keep(r2, AppSpace);
    if r3 != [] {
      KeptMembers(r2, AppSpace, r3[0]);
      KeptMembers(r1, HandshakeSpace, r3[0]);
      KeptMembers(rec, InitialSpace, r3[0]);
    }
  }

  lemma NoRangeIsKept(ranges: seq<PacketRanges>)
    ensures KeepRanges(KeepRanges(KeepRanges(ranges, InitialSpace), HandshakeSpace), AppSpace) == []
  {
    hide KeepRanges;
    var r1 := KeepRanges(ranges, InitialSpace);
    var r2 := KeepRanges(r1, HandshakeSpace);
    if KeepRanges(r2, AppSpace) != [] {
      KeptRangesMembers(r2, AppSpace, 0);
      var i :| 0 <= i < |r2| && r2[i] == KeepRanges(r2, AppSpace)[0];
      KeptRangesMembers(r1, HandshakeSpace, i);
      var j :| 0 <= j < |r1| && r1[j] == r2[i];
      KeptRangesMembers(ranges, InitialSpace, j);
    }
  }

  lemma AckIsLogged(b: Books, s: Space, ack: AckFrame, reported: seq<Report>, log: seq<Action>)
    requires Agree(b) && Logged(b, reported, log)
    ensures var o := AckApplied(b, s, ack); Logged(o.books, reported + Tag(s, o.acked) + Tag(s, o.lost), log)
  {
    hide Agree, MarkAll, MarkSent, OnAck, Logged, IsOutstanding;
    var o, b1 := AckApplied(b, s, ack), WithLargest(b, s, ack.largest);
    AckIsTwoRetirements(b, s, ack);
    RetiringIsLogged(b, b1, s, [], reported, log);
    assert reported + Tag(s, []) == reported;
    var b2 := Retire(b1, s, o.acked, Acknowledged);
    RetiringIsLogged(b1, b2, s, o.acked, reported, log);
    RetiringIsLogged(b2, o.books, s, o.lost, reported + Tag(s, o.acked), log);
  }

  lemma AckKeepsOrder(b: Books, s: Space, ack: AckFrame, reported: seq<Report>, log: seq<Action>)
    requires InOrder(b, reported, log)
    ensures var o := AckApplied(b, s, ack); InOrder(o.books, reported + Tag(s, o.acked) + Tag(s, o.lost), log)
  {
    hide Agree, ReportedOnce, OnAck, MarkAll, Rising, Logged;
    AckKeepsAgreement(b, s, ack, reported);
    var c := AckApplied(b, s, ack).books;
    assert forall t :: c.Get(t).received == b.Get(t).received && c.Get(t).next == b.Get(t).next;
    LaterNumbersStillRise(b, c, log);
    AckIsLogged(b, s, ack, reported, log);
  }

  /** What an ACK frame does not report, it leaves outstanding. */
  lemma AckReportsOrLeaves(b: Books, s: Space, ack: AckFrame, x: nat)
    requires IsOutstanding(b.Get(s).sent, x)
    ensures var o := AckApplied(b, s, ack);
            x in o.acked || x in o.lost || IsOutstanding(o.books.Get(s).sent, x)
  {
    hide AckAll, LoseAll, Changed, MarkAll;
    var ps, numbers := b.Get(s).sent, AckRanges.Expand(ack);
    if numbers != {} {
      var qs := AckAll(ps, numbers);
      var rs := LoseAll(qs, ack.largest, PACKET_THRESHOLD);
      var i :| 0 <= i < |ps| && ps[i].number == x && ps[i].state.Outstanding?;
      ChangedMembers(ps, qs, x);
      ChangedMembers(qs, rs, x);
      assert rs[i].state.Outstanding? || qs[i].state != ps[i].state || rs[i].state != qs[i].state;
    }
  }

  /** Every outstanding packet that one of the ACK frames names is in the log of reports. */
  ghost predicate AcksReported(b: Books, s: Space, frames: seq<Frame>, reported: seq<Report>) {
    forall i, x | 0 <= i < |frames| && frames[i].Ack? && x in AckRanges.Expand(frames[i].ack) ::
      IsOutstanding(b.Get(s).sent, x) ==> Report(s, x) in reported
  }

  /** A packet outstanding at first is still outstanding or has been reported. */
  ghost predicate NoneForgotten(b: Books, c: Books, s: Space, reported: seq<Report>) {
    forall x | IsOutstanding(b.Get(s).sent, x) :: IsOutstanding(c.Get(s).sent, x) || Report(s, x) in reported
  }

  lemma AckStepReports(b: Books, c: Books, s: Space, ack: AckFrame, reported: seq<Report>, x: nat)
    requires NoneForgotten(b, c, s, reported) && IsOutstanding(b.Get(s).sent, x)
    ensures var o := AckApplied(c, s, ack);
            var after := reported + Tag(s, o.acked) + Tag(s, o.lost);
            && (IsOutstanding(o.books.Get(s).sent, x) || Report(s, x) in after)
            && (x in AckRanges.Expand(ack) ==> Report(s, x) in after)
  {
    hide AckApplied, IsOutstanding;
    if Report(s, x) !in reported {
      AckReportsOrLeaves(c, s, ack, x);
      AckedExactly(c, s, ack, x);
      var o := AckApplied(c, s, ack);
      TagMembers(s, o.acked, x);
      TagMembers(s, o.lost, x);
    }
  }

  lemma TagMembers(s: Space, numbers: seq<nat>, x: nat)
    ensures x in numbers ==> Report(s, x) in Tag(s, numbers)
  {
    if x in numbers {
      var i :| 0 <= i < |numbers| && numbers[i] == x;
      assert Tag(s, numbers)[i] == Report(s, x);
    }
  }

  lemma TimerKeepsOrder(
    b: Books, s: Space, lossDelay: Option<int>, probe: Option<int>, now: int, reported: seq<Report>, log: seq<Action>)
    requires InOrder(b, reported, log)
    ensures var lost := TimerLosses(b, s, lossDelay, probe, now);
            InOrder(Retire(b, s, lost, Lost), reported + Tag(s, lost), log)
  {
    hide Agree, ReportedOnce, TimerLosses, MarkAll, MarkSent, Rising, Logged, IsOutstanding;
    TimerKeepsAgreement(b, s, lossDelay, probe, now, reported);
    var lost := TimerLosses(b, s, lossDelay, probe, now);
    var c := Retire(b, s, lost, Lost);
    assert forall t :: c.Get(t).received == b.Get(t).received && c.Get(t).next == b.Get(t).next;
    LaterNumbersStillRise(b, c, log);
    TimerLossesAreRetirable(b, s, lossDelay, probe, now);
    RetiringIsLogged(b, c, s, lost, reported, log);
  }

  lemma ClearingKeepsNoRecords(b: Books, s: Space)
    requires NoRecords(b)
    ensures NoRecords(Cleared(b, s))
  {
  }

  // ---------------------------------------------------------------- what the loop is told

  datatype Endpoint = Endpoint(host: string, port: nat, alpn: string)

  datatype Config = Config(
    server: bool, migrationDisabled: bool, addressValidated: bool, keys: Keys, maxPayload: nat,
    idleTimeout: int, drainTimeout: int, maxAckDelay: nat, ackDelayExponent: nat,
    streamMaxData: u64, bidiLimit: nat, uniLimit: nat, connectionMax: u64)

  /** The TLS adapter as the loop sees it. */
  datatype Tls = Tls(confirmed: bool, handshakeKeys: bool, applicationKeys: bool, scheduleReady: bool) {
    predicate Ready() {
      confirmed && applicationKeys && scheduleReady
    }
  }

  datatype Keys = Keys(initialGone: bool, handshakeGone: bool, appGone: bool, oneRttSend: bool) {
    predicate Discarded(s: Space) {
      match s
      case InitialSpace => initialGone
      case HandshakeSpace => handshakeGone
      case AppSpace => appGone
    }

    function Discard(s: Space): Keys {
      match s
      case InitialSpace => this.(initialGone := true)
      case HandshakeSpace => this.(handshakeGone := true)
      case AppSpace => this.(appGone := true)
    }

    /** Handshake keys end the Initial space. */
    function Observe(tls: Tls): Keys {
      this.(initialGone := initialGone || tls.handshakeKeys, oneRttSend := oneRttSend || tls.applicationKeys)
    }
  }

  /** Congestion control, pacing and packet assembly; no size means that assembly failed. */
  datatype SendEnv = SendEnv(canSend: bool, pacingAllows: bool, assembled: Option<u64>)

  /** CRYPTO data of one level, cut into frames; no frames means that it does not fit the packet budget. */
  datatype CryptoItem = CryptoItem(space: Space, frames: Option<seq<Frame>>)

  datatype Pump = NoAdapter | AdvanceFailed | Drained(items: seq<CryptoItem>)

  /** `clock` is the time the loop reads for itself when TLS fails. */
  datatype FlushEnv = FlushEnv(
    before: Option<Tls>, pump: Pump, clock: int, after: Option<Tls>,
    initial: SendEnv, handshake: SendEnv, application: SendEnv)

  /** Credit fields are 64 bits wide. */
  predicate FitsWire(f: Frame) {
    match f
    case MaxData(maximum) => maximum <= U64_MAX
    case MaxStreamData(id, maximum) => id <= U64_MAX && maximum <= U64_MAX
    case MaxStreams(_, maximum) => maximum <= U64_MAX
    case _ => true
  }

  type WireFrame = f: Frame | FitsWire(f) witness Ping

  /** What a packet holds once it is decrypted and decoded; its header says which space it belongs to. */
  datatype Contents = Contents(number: u64, frames: seq<WireFrame>)

  datatype Parsed = Parsed(space: Space, number: u64, frames: seq<WireFrame>)

  function PacketIn(s: Space, c: Contents): Parsed {
    Parsed(s, c.number, c.frames)
  }

  /**
   * The rest of what handling a packet depends on: the challenge generator, the connection IDs the packet retires (none
   * on a violation), the positions of the frames that the receiving streams or TLS refuse, the TLS state before and
   * after, and whether fresh packet protection could be obtained.
   */
  datatype PacketEnv = PacketEnv(
    token: Option<PathToken>, retired: Option<seq<nat>>, refused: set<nat>,
    before: Option<Tls>, after: Option<Tls>, protectorsRefreshed: bool)

  /** The address is the known one, or the connection may move and, as a server, can challenge it. */
  predicate Acceptable(known: Endpoint, from: Endpoint, config: Config, token: Option<PathToken>) {
    from == known || (!config.migrationDisabled && (config.server ==> token.Some?))
  }

  /** The packets of a datagram as the loop finds them. */
  datatype Chunk =
    | Unreadable(onlyZeros: bool)
    | BadHeader
    | LongPacket(space: Space, size: u64, parsed: Option<Contents>, env: PacketEnv)

  datatype Inbound =
    | ShortDatagram(size: u64, parsed: Option<Contents>, statelessReset: bool, env: PacketEnv)
    | LongDatagram(chunks: seq<Chunk>)

  // ---------------------------------------------------------------- timers

  const MILLISECOND := 1_000_000
  const INITIAL_RTT := 333 * MILLISECOND

  /** The longest duration of the clock, in nanoseconds and in whole microseconds. */
  const MAX_DURATION := 0x7fff_ffff_ffff_ffff
  const MAX_MICROSECONDS := MAX_DURATION / 1000

  function Pow2(n: nat): nat {
    if n == 0 then 1 else 2 * Pow2(n - 1)
  }

  /** `decode_ack_delay`: the field counts microseconds in powers of two, and saturates. */
  function AckDelay(field: u64, exponent: nat): nat {
    if 64 <= exponent then MAX_DURATION else
      PowIsPositive(exponent);
      if MAX_MICROSECONDS / Pow2(exponent) < field then MAX_DURATION else field * Pow2(exponent) * 1000
  }

  lemma PowIsPositive(n: nat)
    ensures 0 < Pow2(n)
  {
  }

  lemma EightMore(n: nat)
    ensures Pow2(n + 8) == 256 * Pow2(n)
  {
    assert Pow2(n + 4) == 16 * Pow2(n) by {
      assert Pow2(n + 2) == 4 * Pow2(n);
    }
    assert Pow2(n + 6) == 4 * Pow2(n + 4);
  }

  lemma {:induction false} PowIsHuge(n: nat)
    requires 64 <= n
    ensures MAX_MICROSECONDS < Pow2(n)
  {
    if n == 64 {
      EightMore(0);
      EightMore(8);
      EightMore(16);
      EightMore(24);
      EightMore(32);
      EightMore(40);
      EightMore(48);
      EightMore(56);
    } else {
      PowIsHuge(n - 1);
    }
  }

  /**
   * The decoded delay is the field's value where the clock can hold it and the clock's maximum otherwise, except for a
   * zero field under an exponent of 64 or more, which is read as the maximum.
   */
  lemma AckDelayIsExact(field: u64, exponent: nat)
    ensures (AckDelay(field, exponent) ==
             if field * Pow2(exponent) <= MAX_MICROSECONDS then field * Pow2(exponent) * 1000 else MAX_DURATION)
       <==> (exponent < 64 || field != 0)
  {
    hide Pow2;
    if exponent < 64 {
      PowIsPositive(exponent);
      QuotientBound(field, Pow2(exponent), MAX_MICROSECONDS);
    } else {
      PowIsHuge(exponent);
      NoSmaller(field, Pow2(exponent));
    }
  }

  /** The exception: no delay at all, read as the longest. */
  lemma NoDelayIsReadAsTheLongest()
    ensures AckDelay(0, 64) == MAX_DURATION && AckDelay(0, 63) == 0
  {
    hide Pow2;
    PowIsPositive(63);
    QuotientBound(0, Pow2(63), MAX_MICROSECONDS);
  }

  lemma NoSmaller(a: nat, m: nat)
    ensures if a == 0 then a * m == 0 else m <= a * m
  {
  }

  lemma QuotientBound(a: nat, m: nat, limit: nat)
    requires 0 < m
    ensures a <= limit / m <==> a * m <= limit
  {
    var q := limit / m;
    assert limit == q * m + limit % m;
    if a <= q {
      assert a * m <= q * m;
    } else {
      assert (q + 1) * m <= a * m;
    }
  }

  function LossDelay(e: Rtt.Estimate): Option<int> {
    if e.hasSample then Some(Max(Rtt.Scale(Max(e.latest, e.smoothed), 9, 8), MILLISECOND)) else None
  }

  /** The probe timeout, where the space may use one. */
  function ProbeDelay(e: Rtt.Estimate, s: Space, confirmed: bool, maxAckDelay: nat): Option<int> {
    if s.AppSpace? && !confirmed then None else
      var smoothed := if e.hasSample then e.smoothed else INITIAL_RTT;
      var variance := if e.hasSample then e.variance else INITIAL_RTT / 2;
      Some(Max(smoothed + Max(variance * 4, MILLISECOND) + (if s.AppSpace? then maxAckDelay else 0), MILLISECOND))
  }

  /**
   * No packet is given up before nine eighths of the last and of the smoothed round trip, rounded down, nor within a
   * millisecond; and a probe waits at least for the smoothed round trip and four times its variance.
   */
  lemma DelaysAreLongEnough(e: Rtt.Estimate, s: Space, confirmed: bool, maxAckDelay: nat)
    ensures LossDelay(e).Some? <==> e.hasSample
    ensures e.hasSample ==> 9 * e.latest < 8 * LossDelay(e).value + 8 && 9 * e.smoothed < 8 * LossDelay(e).value + 8
    ensures e.hasSample ==> MILLISECOND <= LossDelay(e).value
    ensures ProbeDelay(e, s, confirmed, maxAckDelay).None? <==> s.AppSpace? && !confirmed
    ensures e.hasSample && ProbeDelay(e, s, confirmed, maxAckDelay).Some? ==>
              e.smoothed + 4 * e.variance + (if s.AppSpace? then maxAckDelay else 0)
                <= ProbeDelay(e, s, confirmed, maxAckDelay).value
    ensures !e.hasSample && ProbeDelay(e, s, confirmed, maxAckDelay).Some? ==>
              3 * INITIAL_RTT <= ProbeDelay(e, s, confirmed, maxAckDelay).value
  {
  }

  /** The delays exactly: nine eighths of the longer round trip, rounded down, but at least a millisecond. */
  lemma LossDelayExactly(e: Rtt.Estimate)
    ensures LossDelay(e).Some? <==> e.hasSample
    ensures e.hasSample ==>
              var longer := if e.latest < e.smoothed then e.smoothed else e.latest;
              if 9 * longer < 8_000_008 then LossDelay(e).value == 1_000_000
              else Rtt.Rounded(LossDelay(e).value, 9 * longer, 8)
  {
  }

  /**
   * The probe timeout exactly: round trip, four variances or a millisecond, and for application data the peer's longest
   * delay; a third of a second and half of that as long as there is no sample.
   */
  lemma ProbeDelayExactly(e: Rtt.Estimate, s: Space, confirmed: bool, maxAckDelay: nat)
    ensures ProbeDelay(e, s, confirmed, maxAckDelay).None? <==> s == AppSpace && !confirmed
    ensures ProbeDelay(e, s, confirmed, maxAckDelay).Some? ==>
              var base := if e.hasSample then e.smoothed else 333_000_000;
              var spread := if !e.hasSample then 666_000_000
                            else if e.variance < 250_000 then 1_000_000 else 4 * e.variance;
              ProbeDelay(e, s, confirmed, maxAckDelay).value == base + spread + if s == AppSpace then maxAckDelay else 0
  {
  }

  /** `recovery_timer_for`: a discarded space has no timer. */
  function TimerOf(b: Books, keys: Keys, e: Rtt.Estimate, confirmed: bool, maxAckDelay: nat, s: Space): Option<Timer> {
    if keys.Discarded(s) then None
    else TimerFor(b.recovery, s, b.Get(s).largest, LossDelay(e), ProbeDelay(e, s, confirmed, maxAckDelay))
  }

  /** How many packets the timers of all spaces wait for. */
  ghost function Waiting(rec: seq<RecoveryPacket>): nat {
    AwaitedCount(rec, InitialSpace) + AwaitedCount(rec, HandshakeSpace) + AwaitedCount(rec, AppSpace)
  }

  /** An expired timer leaves fewer packets to wait for in its space, and as many as before elsewhere. */
  lemma ExpiredTimerLowersWaiting(
    b: Books, keys: Keys, e: Rtt.Estimate, confirmed: bool, maxAckDelay: nat, s: Space, now: int)
    requires TimerOf(b, keys, e, confirmed, maxAckDelay, s).Some?
    requires TimerOf(b, keys, e, confirmed, maxAckDelay, s).value.deadline <= now
    ensures var lost := TimerLosses(b, s, LossDelay(e), ProbeDelay(e, s, confirmed, maxAckDelay), now);
            lost != [] && Waiting(MarkAll(b.recovery, s, lost, Lost)) < Waiting(b.recovery)
  {
    hide TimerLosses, TimerFor, AwaitedCount, LossDelay, ProbeDelay, MarkAll;
    var lossDelay, probe := LossDelay(e), ProbeDelay(e, s, confirmed, maxAckDelay);
    var lost := TimerLosses(b, s, lossDelay, probe, now);
    ExpiredTimerActs(b, s, lossDelay, probe, now);
    ExpiredTimerMakesProgress(b, s, lossDelay, probe, now);
    forall t | t != s
      ensures AwaitedCount(MarkAll(b.recovery, s, lost, Lost), t) == AwaitedCount(b.recovery, t)
    {
      MarkingLeavesOthers(b.recovery, s, lost, Lost, t);
    }
  }

  lemma LiveTimer(b: Books, keys: Keys, e: Rtt.Estimate, confirmed: bool, maxAckDelay: nat, s: Space)
    ensures TimerOf(b, keys, e, confirmed, maxAckDelay, s).Some? ==> !keys.Discarded(s)
  {
  }

  /** The order the spaces are gone through in. */
  ghost function Place(s: Space): nat {
    match s
    case InitialSpace => 0
    case HandshakeSpace => 1
    case AppSpace => 2
  }

  datatype Alarm = Alarm(space: Space, deadline: int)

  /** Keeps the timer with the earlier deadline, the first one on a tie. */
  function Sooner(best: Option<Alarm>, s: Space, timer: Option<Timer>): Option<Alarm> {
    if timer.Some? && (best.None? || timer.value.deadline < best.value.deadline)
    then Some(Alarm(s, timer.value.deadline)) else best
  }

  datatype TimerKind = IdleTimer | ClosingTimer | DrainingTimer

  datatype LifecycleTimer = LifecycleTimer(kind: TimerKind, deadline: int)

  /** The timer each state runs; a closed connection runs none. */
  function KindOf(state: State): TimerKind {
    match state
    case Active => IdleTimer
    case Closing => ClosingTimer
    case _ => DrainingTimer
  }

  // ---------------------------------------------------------------- frames that carry a rule

  predicate ApplicationOnly(f: Frame) {
    || f.ApplicationClose? || f.ResetStream? || f.StopSending? || f.NewToken? || f.Stream? || f.MaxData?
    || f.MaxStreamData? || f.DataBlocked? || f.StreamDataBlocked? || f.MaxStreams? || f.StreamsBlocked?
    || f.NewConnectionId? || f.RetireConnectionId? || f.HandshakeDone? || f.PathChallenge? || f.PathResponse?
  }

  ghost predicate AllowedFrom(server: bool, s: Space, f: Frame) {
    && (s.AppSpace? || !ApplicationOnly(f))
    && (server ==> !f.HandshakeDone? && !f.NewToken?)
    && (f.Ack? ==> AckRanges.Valid(f.ack))
  }

  ghost predicate AllAllowed(server: bool, s: Space, frames: seq<Frame>) {
    forall i | 0 <= i < |frames| :: AllowedFrom(server, s, frames[i])
  }

  predicate PeerCloses(frames: seq<Frame>) {
    exists i :: 0 <= i < |frames| && (frames[i].ConnectionClose? || frames[i].ApplicationClose?)
  }

  /** The checks every packet must pass before any of its frames takes effect. */
  method CheckFrames(server: bool, s: Space, frames: seq<Frame>) returns (ok: bool)
    ensures ok <==> AllAllowed(server, s, frames)
  {
    for i := 0 to |frames|
      invariant forall k | 0 <= k < i :: AllowedFrom(server, s, frames[k])
    {
      var f := frames[i];
      if (!s.AppSpace? && ApplicationOnly(f)) || (server && (f.HandshakeDone? || f.NewToken?)) {
        return false;
      }
      if f.Ack? {
        var valid := AckRanges.RangesValid(f.ack);
        if !valid {
          return false;
        }
      }
    }
    return true;
  }

  method HasPeerClose(frames: seq<Frame>) returns (closed: bool)
    ensures closed <==> PeerCloses(frames)
  {
    for i := 0 to |frames|
      invariant forall k | 0 <= k < i :: !frames[k].ConnectionClose? && !frames[k].ApplicationClose?
    {
      if frames[i].ConnectionClose? || frames[i].ApplicationClose? {
        return true;
      }
    }
    return false;
  }

  predicate AckEliciting(frames: seq<Frame>) {
    exists i :: 0 <= i < |frames| && !frames[i].Padding? && !frames[i].Ack?
  }

  /** A queue without the challenges that carry a token. */
  function WithoutChallenge(queue: seq<Frame>, token: PathToken): seq<Frame> {
    if queue == [] then [] else
      var n := |queue| - 1;
      WithoutChallenge(queue[..n], token) + if queue[n] == PathChallenge(token) then [] else [queue[n]]
  }

  method RemoveChallenge(queue: seq<Frame>, token: PathToken) returns (r: seq<Frame>)
    ensures r == WithoutChallenge(queue, token)
  {
    r := [];
    for i := 0 to |queue|
      invariant r == WithoutChallenge(queue[..i], token)
    {
      assert queue[..i + 1][..i] == queue[..i];
      if queue[i] != PathChallenge(token) {
        r := r + [queue[i]];
      }
    }
    assert queue[..|queue|] == queue;
  }

  // ---------------------------------------------------------------- resolving stream ranges

  /** The ranges of the named packets, one packet after the other. */
  function RangesOf(ranges: seq<PacketRanges>, s: Space, numbers: seq<nat>): seq<StreamRange> {
    if numbers == [] then []
    else RangesOf(ranges, s, numbers[..|numbers| - 1]) + FindRanges(ranges, s, numbers[|numbers| - 1])
  }

  /** The sending streams after each range is reported acknowledged, or lost. */
  function Resolved(f: FC.Flow, ranges: seq<StreamRange>, acked: bool): FC.Flow {
    if ranges == [] then f else
      var g, last := Resolved(f, ranges[..|ranges| - 1], acked), ranges[|ranges| - 1];
      if acked then FC.Confirm(g, last.streamId, last.range) else FC.Miss(g, last.streamId, last.range)
  }

  lemma {:induction false} ResolvedConcat(f: FC.Flow, a: seq<StreamRange>, b: seq<StreamRange>, acked: bool)
    ensures Resolved(f, a + b, acked) == Resolved(Resolved(f, a, acked), b, acked)
  {
    if b == [] {
      assert a + b == a;
    } else {
      var n := |b| - 1;
      assert (a + b)[..|a| + n] == a + b[..n];
      ResolvedConcat(f, a, b[..n], acked);
    }
  }

  method FindSentRanges(ranges: seq<PacketRanges>, s: Space, number: nat) returns (found: seq<StreamRange>)
    ensures found == FindRanges(ranges, s, number)
  {
    for i := 0 to |ranges|
      invariant FindRanges(ranges, s, number) == FindRanges(ranges[i..], s, number)
    {
      assert ranges[i..][1..] == ranges[i + 1..];
      if ranges[i].space == s && ranges[i].number == number {
        return ranges[i].ranges;
      }
    }
    return [];
  }

  method ResolveRanges(streams: FC.StreamSendSet, ranges: seq<StreamRange>, acked: bool)
    requires streams.Valid()
    modifies streams`streams
    ensures streams.Valid() && streams.Abstract() == Resolved(old(streams.Abstract()), ranges, acked)
  {
    hide FC.Flow.Valid, FC.Confirm, FC.Miss;
    for i := 0 to |ranges|
      invariant streams.Valid() && streams.Abstract() == Resolved(old(streams.Abstract()), ranges[..i], acked)
    {
      assert ranges[..i + 1][..i] == ranges[..i];
      if acked {
        streams.RangeAcked(ranges[i].streamId, ranges[i].range);
      } else {
        streams.RangeLost(ranges[i].streamId, ranges[i].range);
      }
    }
    assert ranges[..|ranges|] == ranges;
  }

  /** `apply_stream_ack_mapping` and `apply_stream_loss_mapping`. */
  method ResolvePackets(
    streams: FC.StreamSendSet, ranges: seq<PacketRanges>, s: Space, numbers: seq<nat>, acked: bool)
    requires streams.Valid()
    modifies streams`streams
    ensures streams.Valid()
    ensures streams.Abstract() == Resolved(old(streams.Abstract()), RangesOf(ranges, s, numbers), acked)
  {
    hide FC.Flow.Valid, Resolved, FindRanges;
    ghost var start := streams.Abstract();
    ResolvedNothing(start, acked);
    for i := 0 to |numbers|
      invariant streams.Valid() && streams.Abstract() == Resolved(start, RangesOf(ranges, s, numbers[..i]), acked)
    {
      assert numbers[..i + 1][..i] == numbers[..i];
      var found := FindSentRanges(ranges, s, numbers[i]);
      ResolveRanges(streams, found, acked);
      ResolvedConcat(start, RangesOf(ranges, s, numbers[..i]), found, acked);
    }
    assert numbers[..|numbers|] == numbers;
  }

  lemma ResolvedNothing(f: FC.Flow, acked: bool)
    ensures Resolved(f, [], acked) == f
  {
  }

  lemma SameBooks(b: Books, s: Space, n: nat)
    requires n in b.Get(s).received
    ensures WithReceived(b, s, n) == b
  {
    assert b.Get(s).received + {n} == b.Get(s).received;
  }

  lemma NewBooksAreInOrder()
    ensures InOrder(NewBooks, [], [])
  {
    forall s
      ensures SpaceAgrees(NewBooks, s) && NewBooks.Get(s) == NewSpace
    {
    }
  }
}
