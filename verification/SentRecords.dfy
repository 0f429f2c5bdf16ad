/**
 * The connection's books on sent packets (connection.hpp, connection_packet_spaces.hpp): two records that must
 * agree, packet numbers that never repeat, and each packet retired at most once.
 */
module SentRecords {
  import opened Common
  import opened Frames
  import opened Recovery
  import opened StreamSend
  import AckRanges

  /** One packet number space. */
  datatype SpaceState = SpaceState(
    queue: seq<Frame>, next: nat, received: set<nat>, sent: seq<SentPacket>, largest: Option<nat>)

  /** A range of one stream. */
  datatype StreamRange = StreamRange(streamId: nat, range: SendRange)

  /** The stream ranges one packet carried. */
  datatype PacketRanges = PacketRanges(space: Space, number: nat, ranges: seq<StreamRange>)

  datatype Books = Books(
    initial: SpaceState, handshake: SpaceState, app: SpaceState,
    recovery: seq<RecoveryPacket>, ranges: seq<PacketRanges>)
  {
    function Get(s: Space): SpaceState {
      match s
      case InitialSpace => initial
      case HandshakeSpace => handshake
      case AppSpace => app
    }

    function Set(s: Space, state: SpaceState): (b: Books)
      ensures b.Get(s) == state && forall t | t != s :: b.Get(t) == Get(t)
      ensures b.recovery == recovery && b.ranges == ranges
    {
      match s
      case InitialSpace => this.(initial := state)
      case HandshakeSpace => this.(handshake := state)
      case AppSpace => this.(app := state)
    }
  }

  const NewSpace := SpaceState([], 0, {}, [], None)
  const NewBooks := Books(NewSpace, NewSpace, NewSpace, [], [])

  // ---------------------------------------------------------------- the invariant

  ghost predicate SpaceAgrees(b: Books, s: Space) {
    var st := b.Get(s);
    && Project(b.recovery, s) == st.sent
    && Increasing(st.sent)
    && (forall i | 0 <= i < |st.sent| :: st.sent[i].number < st.next)
  }

  /** Per space the two records hold the same packets in the same states, numbered in increasing order. */
  ghost predicate Agree(b: Books) {
    && (forall s :: SpaceAgrees(b, s))
    && IncreasingRec(b.recovery)
    && (forall i | 0 <= i < |b.recovery| :: b.recovery[i].number < b.Get(b.recovery[i].space).next)
  }

  datatype Report = Report(space: Space, number: nat)

  ghost predicate Distinct(log: seq<Report>) {
    forall i, j | 0 <= i < j < |log| :: log[i] != log[j]
  }

  /** Every packet ever reported is numbered, and if it is still on record it is no longer outstanding. */
  ghost predicate Retired(b: Books, r: Report) {
    && r.number < b.Get(r.space).next
    && (forall i | 0 <= i < |b.Get(r.space).sent| && b.Get(r.space).sent[i].number == r.number ::
          !b.Get(r.space).sent[i].state.Outstanding?)
  }

  /** The log of packets reported acknowledged or lost, over the whole life of the connection. */
  ghost predicate ReportedOnce(b: Books, log: seq<Report>) {
    Distinct(log) && forall i | 0 <= i < |log| :: Retired(b, log[i])
  }

  ghost function Tag(s: Space, numbers: seq<nat>): (log: seq<Report>)
    ensures |log| == |numbers| && forall i | 0 <= i < |numbers| :: log[i] == Report(s, numbers[i])
  {
    seq(|numbers|, i requires 0 <= i < |numbers| => Report(s, numbers[i]))
  }

  // ---------------------------------------------------------------- sending and clearing

  /** The stream ranges in a list of frames, in order. */
  function StreamRanges(frames: seq<Frame>): seq<StreamRange> {
    if frames == [] then [] else
      var n := |frames| - 1;
      var f := frames[n];
      StreamRanges(frames[..n]) +
      if f.Stream?
      then [StreamRange(f.stream.streamId, SendRange(f.stream.Start(), |f.stream.data|, f.stream.fin))] else []
  }

  /** Packet `next` goes out: both records take it, its stream ranges are noted, and the number is used up. */
  function Sent(b: Books, s: Space, sentAt: int, ackEliciting: bool, frames: seq<Frame>): Books {
    var st := b.Get(s);
    var number := st.next;
    var ranges := StreamRanges(frames);
    b.Set(s, st.(next := number + 1, sent := st.sent + [SentPacket(number, ackEliciting, Outstanding)]))
    .(recovery := b.recovery + [RecoveryPacket(s, number, sentAt, ackEliciting, Outstanding)],
      ranges := if ranges == [] then b.ranges else b.ranges + [PacketRanges(s, number, ranges)])
  }

  function KeepRanges(ranges: seq<PacketRanges>, cleared: Space): seq<PacketRanges> {
    if ranges == [] then []
    else (if ranges[0].space == cleared then [] else [ranges[0]]) + KeepRanges(ranges[1..], cleared)
  }

  /** `clear_packet_space`: everything but the next packet number. */
  function Cleared(b: Books, s: Space): Books {
    b.Set(s, SpaceState([], b.Get(s).next, {}, [], None))
    .(recovery := Keep(b.recovery, s), ranges := KeepRanges(b.ranges, s))
  }

  lemma SentKeepsAgreement(b: Books, s: Space, sentAt: int, ackEliciting: bool, frames: seq<Frame>, log: seq<Report>)
    requires Agree(b) && ReportedOnce(b, log)
    ensures Agree(Sent(b, s, sentAt, ackEliciting, frames))
            && ReportedOnce(Sent(b, s, sentAt, ackEliciting, frames), log)
    ensures b.Get(s).next < Sent(b, s, sentAt, ackEliciting, frames).Get(s).next
  {
    hide Project;
    var c := Sent(b, s, sentAt, ackEliciting, frames);
    var p := RecoveryPacket(s, b.Get(s).next, sentAt, ackEliciting, Outstanding);
    forall t
      ensures SpaceAgrees(c, t)
    {
      assert SpaceAgrees(b, t);
      ProjectAppend(b.recovery, p, t);
    }
    assert SpaceAgrees(b, s);
    forall i | 0 <= i < |log|
      ensures Retired(c, log[i])
    {
      assert Retired(b, log[i]);
    }
  }

  lemma ClearedKeepsAgreement(b: Books, s: Space, log: seq<Report>)
    requires Agree(b) && ReportedOnce(b, log)
    ensures Agree(Cleared(b, s)) && ReportedOnce(Cleared(b, s), log)
    ensures forall t :: Cleared(b, s).Get(t).next == b.Get(t).next
  {
    hide Project;
    var c := Cleared(b, s);
    forall t
      ensures SpaceAgrees(c, t)
    {
      assert SpaceAgrees(b, t);
      ProjectKept(b.recovery, s, t);
    }
    KeptIsIncreasing(b.recovery, s);
    forall i | 0 <= i < |c.recovery|
      ensures c.recovery[i].number < c.Get(c.recovery[i].space).next
    {
      KeptMembers(b.recovery, s, c.recovery[i]);
    }
    forall i | 0 <= i < |log|
      ensures Retired(c, log[i])
    {
      assert Retired(b, log[i]);
    }
  }

  method CollectStreamRanges(frames: seq<Frame>) returns (ranges: seq<StreamRange>)
    ensures ranges == StreamRanges(frames)
  {
    ranges := [];
    for i := 0 to |frames|
      invariant ranges == StreamRanges(frames[..i])
    {
      assert frames[..i + 1][..i] == frames[..i];
      if frames[i].Stream? {
        var f := frames[i].stream;
        ranges := ranges + [StreamRange(f.streamId, SendRange(f.Start(), |f.data|, f.fin))];
      }
    }
    assert frames[..|frames|] == frames;
  }

  /** The bookkeeping of a packet that goes out. */
  method RecordSent(b: Books, s: Space, sentAt: int, ackEliciting: bool, frames: seq<Frame>) returns (c: Books)
    requires Agree(b)
    ensures c == Sent(b, s, sentAt, ackEliciting, frames) && Agree(c)
  {
    var st := b.Get(s);
    var number := st.next;
    st := st.(next := number + 1, sent := st.sent + [SentPacket(number, ackEliciting, Outstanding)]);
    var ranges := CollectStreamRanges(frames);
    c := b.Set(s, st).(recovery := b.recovery + [RecoveryPacket(s, number, sentAt, ackEliciting, Outstanding)]);
    if ranges != [] {
      c := c.(ranges := c.ranges + [PacketRanges(s, number, ranges)]);
    }
    SentKeepsAgreement(b, s, sentAt, ackEliciting, frames, []);
  }

  method RemoveSpace(rec: seq<RecoveryPacket>, s: Space) returns (r: seq<RecoveryPacket>)
    ensures r == Keep(rec, s)
  {
    r := [];
    for i := 0 to |rec|
      invariant r == Keep(rec[..i], s)
    {
      assert rec[..i + 1][..i] == rec[..i];
      if rec[i].space != s {
        r := r + [rec[i]];
      }
    }
    assert rec[..|rec|] == rec;
  }

  method RemoveRanges(ranges: seq<PacketRanges>, s: Space) returns (r: seq<PacketRanges>)
    ensures r == KeepRanges(ranges, s)
  {
    hide KeepRanges;
    r := [];
    assert ranges[0..] == ranges && [] + KeepRanges(ranges, s) == KeepRanges(ranges, s);
    for i := 0 to |ranges|
      invariant r + KeepRanges(ranges[i..], s) == KeepRanges(ranges, s)
    {
      var rest := ranges[i + 1..];
      assert ranges[i..] == [ranges[i]] + rest;
      KeepCons(ranges[i], rest, s);
      if ranges[i].space != s {
        assert r + ([ranges[i]] + KeepRanges(rest, s)) == r + [ranges[i]] + KeepRanges(rest, s);
        r := r + [ranges[i]];
      } else {
        assert r + ([] + KeepRanges(rest, s)) == r + KeepRanges(rest, s);
      }
    }
    KeepNothing(s);
    assert ranges[|ranges|..] == [] && r + [] == r;
  }

  lemma KeepNothing(s: Space)
    ensures KeepRanges([], s) == []
  {
  }

  method ClearSpace(b: Books, s: Space) returns (c: Books)
    requires Agree(b)
    ensures c == Cleared(b, s) && Agree(c)
  {
    var recovery := RemoveSpace(b.recovery, s);
    var ranges := RemoveRanges(b.ranges, s);
    c := b.Set(s, SpaceState([], b.Get(s).next, {}, [], None)).(recovery := recovery, ranges := ranges);
    ClearedKeepsAgreement(b, s, []);
  }

  // ---------------------------------------------------------------- retiring packets

  ghost predicate Ascending(numbers: seq<nat>) {
    forall i, j | 0 <= i < j < |numbers| :: numbers[i] < numbers[j]
  }

  /** Numbers of outstanding packets of the space, each once. */
  ghost predicate Retirable(b: Books, s: Space, numbers: seq<nat>) {
    && Ascending(numbers)
    && forall k | 0 <= k < |numbers| :: IsOutstanding(b.Get(s).sent, numbers[k])
  }

  ghost predicate IsOutstanding(ps: seq<SentPacket>, n: nat) {
    exists i :: 0 <= i < |ps| && ps[i].number == n && ps[i].state.Outstanding?
  }

  /** Packets leave the outstanding state in both records together. */
  function Retire(b: Books, s: Space, numbers: seq<nat>, st: PacketState): Books {
    b.Set(s, b.Get(s).(sent := MarkSent(b.Get(s).sent, numbers, st)))
    .(recovery := MarkAll(b.recovery, s, numbers, st))
  }

  lemma RetireKeepsAgreement(b: Books, s: Space, numbers: seq<nat>, st: PacketState)
    requires Agree(b)
    ensures Agree(Retire(b, s, numbers, st))
  {
    hide Project, MarkSent, MarkAll;
    var c := Retire(b, s, numbers, st);
    forall t
      ensures SpaceAgrees(c, t)
    {
      assert SpaceAgrees(b, t);
      ProjectMarked(b.recovery, s, numbers, st, t);
    }
  }

  /** A retired packet was outstanding before, so it had not been reported; now it never will be again. */
  lemma RetireReportsOnce(b: Books, s: Space, numbers: seq<nat>, st: PacketState, log: seq<Report>)
    requires Agree(b) && ReportedOnce(b, log) && Retirable(b, s, numbers) && !st.Outstanding?
    ensures ReportedOnce(Retire(b, s, numbers, st), log + Tag(s, numbers))
  {
    hide MarkSent, MarkAll, Agree;
    var c, all := Retire(b, s, numbers, st), log + Tag(s, numbers);
    forall i | 0 <= i < |all|
      ensures Retired(c, all[i])
    {
      if i < |log| {
        assert Retired(b, log[i]);
      } else {
        NumbersAreUsed(b, s, numbers[i - |log|]);
      }
    }
    forall i, j | 0 <= i < |log| && 0 <= j < |numbers|
      ensures log[i] != Report(s, numbers[j])
    {
      assert Retired(b, log[i]) && IsOutstanding(b.Get(s).sent, numbers[j]);
    }
  }

  lemma NumbersAreUsed(b: Books, s: Space, n: nat)
    requires Agree(b) && IsOutstanding(b.Get(s).sent, n)
    ensures n < b.Get(s).next
  {
    assert SpaceAgrees(b, s);
  }

  lemma {:induction false} ChangedAscends(before: seq<SentPacket>, after: seq<SentPacket>)
    requires |before| == |after| && Increasing(before)
    ensures Ascending(Changed(before, after))
  {
    if before != [] {
      var n := |before| - 1;
      ChangedAscends(before[..n], after[..n]);
      forall k | 0 <= k < |Changed(before[..n], after[..n])|
        ensures Changed(before[..n], after[..n])[k] < before[n].number
      {
        ChangedMembers(before[..n], after[..n], Changed(before[..n], after[..n])[k]);
      }
    }
  }

  /** One elementwise change of a tracker is a retirement of outstanding packets. */
  lemma ChangeRetires(b: Books, s: Space, qs: seq<SentPacket>, st: PacketState)
    requires Agree(b) && |qs| == |b.Get(s).sent| && !st.Outstanding?
    requires var ps := b.Get(s).sent;
             forall i | 0 <= i < |ps| :: qs[i] == ps[i] || (ps[i].state.Outstanding? && qs[i] == ps[i].(state := st))
    ensures var numbers := Changed(b.Get(s).sent, qs);
            Retirable(b, s, numbers) && MarkSent(b.Get(s).sent, numbers, st) == qs
  {
    var ps := b.Get(s).sent;
    var numbers := Changed(ps, qs);
    assert SpaceAgrees(b, s);
    ChangeIsMarking(ps, qs, st);
    ChangedAscends(ps, qs);
    forall k | 0 <= k < |numbers|
      ensures IsOutstanding(ps, numbers[k])
    {
      ChangedMembers(ps, qs, numbers[k]);
    }
  }

  // ---------------------------------------------------------------- acknowledgements

  const PACKET_THRESHOLD := 3

  /** The largest acknowledged number never falls, and it is one that was acknowledged. */
  function RaiseLargest(o: Option<nat>, n: nat): (r: Option<nat>)
    ensures r.Some? && n <= r.value && (o.Some? ==> o.value <= r.value) && (r == Some(n) || r == o)
  {
    if o.None? || o.value < n then Some(n) else o
  }

  datatype Outcome = Outcome(books: Books, acked: seq<nat>, lost: seq<nat>)

  function WithLargest(b: Books, s: Space, largest: nat): Books {
    b.Set(s, b.Get(s).(largest := RaiseLargest(b.Get(s).largest, largest)))
  }

  /** What one ACK frame does to the books. */
  ghost function AckApplied(b: Books, s: Space, ack: AckFrame): Outcome {
    var out := OnAck(b.Get(s).sent, ack, PACKET_THRESHOLD);
    var c := WithLargest(b, s, ack.largest);
    Outcome(
      c.Set(s, c.Get(s).(sent := out.packets))
      .(recovery := MarkAll(MarkAll(b.recovery, s, out.acked, Acknowledged), s, out.lost, Lost)),
      out.acked, out.lost)
  }

  lemma LargestKeepsAgreement(b: Books, s: Space, n: nat, log: seq<Report>)
    requires Agree(b) && ReportedOnce(b, log)
    ensures Agree(WithLargest(b, s, n)) && ReportedOnce(WithLargest(b, s, n), log)
  {
    var c := WithLargest(b, s, n);
    forall t
      ensures SpaceAgrees(c, t)
    {
      assert SpaceAgrees(b, t);
    }
    forall i | 0 <= i < |log|
      ensures Retired(c, log[i])
    {
      assert Retired(b, log[i]);
    }
  }

  /** First the acknowledged packets leave, then those that fell too far behind. */
  lemma AckIsTwoRetirements(b: Books, s: Space, ack: AckFrame)
    requires Agree(b)
    ensures var o, b1 := AckApplied(b, s, ack), WithLargest(b, s, ack.largest);
            var b2 := Retire(b1, s, o.acked, Acknowledged);
            && Agree(b1) && Retirable(b1, s, o.acked)
            && Agree(b2) && Retirable(b2, s, o.lost)
            && o.books == Retire(b2, s, o.lost, Lost)
  {
    hide AckAll, LoseAll, MarkSent, MarkAll, Agree, Changed;
    var ps, numbers := b.Get(s).sent, AckRanges.Expand(ack);
    var b1 := WithLargest(b, s, ack.largest);
    LargestKeepsAgreement(b, s, ack.largest, []);
    if numbers == {} {
      ChangeNothing(b1, s);
    } else {
      var qs := AckAll(ps, numbers);
      ChangeRetires(b1, s, qs, Acknowledged);
      RetireKeepsAgreement(b1, s, Changed(ps, qs), Acknowledged);
      var b2 := Retire(b1, s, Changed(ps, qs), Acknowledged);
      ChangeRetires(b2, s, LoseAll(qs, ack.largest, PACKET_THRESHOLD), Lost);
    }
  }

  lemma ChangeNothing(b: Books, s: Space)
    requires Agree(b)
    ensures Retirable(b, s, [])
    ensures forall st :: Retire(b, s, [], st) == b
  {
    forall st
      ensures Retire(b, s, [], st) == b
    {
      assert MarkSent(b.Get(s).sent, [], st) == b.Get(s).sent;
      assert MarkAll(b.recovery, s, [], st) == b.recovery;
    }
  }

  /** An ACK frame keeps the two records in agreement and reports no packet a second time. */
  lemma AckKeepsAgreement(b: Books, s: Space, ack: AckFrame, log: seq<Report>)
    requires Agree(b) && ReportedOnce(b, log)
    ensures var o := AckApplied(b, s, ack);
            Agree(o.books) && ReportedOnce(o.books, log + Tag(s, o.acked) + Tag(s, o.lost))
  {
    hide Retire, WithLargest;
    var o, b1 := AckApplied(b, s, ack), WithLargest(b, s, ack.largest);
    hide AckApplied;
    LargestKeepsAgreement(b, s, ack.largest, log);
    AckIsTwoRetirements(b, s, ack);
    hide Retirable, Agree, ReportedOnce;
    RetireReportsOnce(b1, s, o.acked, Acknowledged, log);
    var b2 := Retire(b1, s, o.acked, Acknowledged);
    RetireReportsOnce(b2, s, o.lost, Lost, log + Tag(s, o.acked));
    RetireKeepsAgreement(b2, s, o.lost, Lost);
  }

  /** The packets reported acknowledged are the outstanding ones the frame names, and no others. */
  lemma AckedExactly(b: Books, s: Space, ack: AckFrame, x: nat)
    ensures x in AckApplied(b, s, ack).acked <==> IsOutstanding(b.Get(s).sent, x) && x in AckRanges.Expand(ack)
  {
    var ps, numbers := b.Get(s).sent, AckRanges.Expand(ack);
    hide AckAll;
    if numbers != {} {
      ChangedMembers(ps, AckAll(ps, numbers), x);
      hide Changed;
      if i :| 0 <= i < |ps| && ps[i].number == x && ps[i].state.Outstanding? && x in numbers {
        assert AckAll(ps, numbers)[i].state.Acknowledged?;
      }
    }
  }

  ghost predicate IsAwaited(ps: seq<SentPacket>, n: nat) {
    exists i :: 0 <= i < |ps| && ps[i].number == n && ps[i].state.Outstanding? && ps[i].ackEliciting
  }

  /** Those reported lost are the ack-eliciting ones still outstanding at least three below the largest. */
  lemma LostExactly(b: Books, s: Space, ack: AckFrame, x: nat)
    requires AckRanges.Expand(ack) != {}
    ensures x in AckApplied(b, s, ack).lost <==>
            IsAwaited(b.Get(s).sent, x) && x !in AckRanges.Expand(ack) && x + PACKET_THRESHOLD <= ack.largest
  {
    var ps, numbers := b.Get(s).sent, AckRanges.Expand(ack);
    hide AckAll, LoseAll;
    var qs := AckAll(ps, numbers);
    var rs := LoseAll(qs, ack.largest, PACKET_THRESHOLD);
    ChangedMembers(qs, rs, x);
    hide Changed;
    if i :| 0 <= i < |qs| && qs[i].number == x && qs[i].state != rs[i].state {
      assert TooOld(qs[i], ack.largest, PACKET_THRESHOLD);
      assert ps[i] == qs[i];
    }
    if IsAwaited(ps, x) && x !in numbers && x + PACKET_THRESHOLD <= ack.largest {
      var i :| 0 <= i < |ps| && ps[i].number == x && ps[i].state.Outstanding? && ps[i].ackEliciting;
      assert TooOld(qs[i], ack.largest, PACKET_THRESHOLD);
    }
  }

  method ApplyAck(b: Books, s: Space, ack: AckFrame) returns (c: Books, acked: seq<nat>, lost: seq<nat>)
    requires Agree(b)
    ensures Outcome(c, acked, lost) == AckApplied(b, s, ack)
    ensures Agree(c)
  {
    var largest := b.Get(s).largest;
    if largest.None? || ack.largest > largest.value {
      largest := Some(ack.largest);
    }
    var sent;
    sent, acked, lost := OnAckReceived(b.Get(s).sent, ack, PACKET_THRESHOLD);
    var recovery := MarkRecoveryPackets(b.recovery, s, acked, Acknowledged);
    recovery := MarkRecoveryPackets(recovery, s, lost, Lost);
    c := b.Set(s, b.Get(s).(largest := largest, sent := sent)).(recovery := recovery);
    assert Outcome(c, acked, lost) == AckApplied(b, s, ack) by {
      hide MarkAll, OnAck;
    }
    hide AckApplied;
    AckKeepsAgreement(b, s, ack, []);
  }

  /** The packet `rtt_sample_from_ack` measures. */
  ghost predicate Sampled(rec: seq<RecoveryPacket>, s: Space, acked: seq<nat>, p: Option<RecoveryPacket>) {
    && (p.Some? ==> p.value in rec && Awaited(p.value, s) && p.value.number in acked)
    && (forall i | 0 <= i < |rec| && Awaited(rec[i], s) && rec[i].number in acked ::
          p.Some? && rec[i].number <= p.value.number)
  }

  /** The last packet of the list that is awaited and just acknowledged; numbers in order make it the largest. */
  function SampleOf(rec: seq<RecoveryPacket>, s: Space, acked: seq<nat>): Option<RecoveryPacket> {
    if rec == [] then None else
      var n := |rec| - 1;
      if Awaited(rec[n], s) && rec[n].number in acked then Some(rec[n]) else SampleOf(rec[..n], s, acked)
  }

  lemma {:induction false} SampleOfIsSampled(rec: seq<RecoveryPacket>, s: Space, acked: seq<nat>)
    requires IncreasingRec(rec)
    ensures Sampled(rec, s, acked, SampleOf(rec, s, acked))
  {
    if rec != [] {
      var n := |rec| - 1;
      SampleOfIsSampled(rec[..n], s, acked);
      assert forall i | 0 <= i < n :: rec[..n][i] == rec[i];
    }
  }

  lemma SampleIsUnique(rec: seq<RecoveryPacket>, s: Space, acked: seq<nat>, p: Option<RecoveryPacket>)
    requires IncreasingRec(rec) && Sampled(rec, s, acked, p)
    ensures p == SampleOf(rec, s, acked)
  {
    SampleOfIsSampled(rec, s, acked);
    var q := SampleOf(rec, s, acked);
    hide SampleOf;
    if p.Some? {
      var i :| 0 <= i < |rec| && rec[i] == p.value;
      var j :| 0 <= j < |rec| && rec[j] == q.value;
      assert i == j;
    }
  }

  method SamplePacket(rec: seq<RecoveryPacket>, s: Space, acked: seq<nat>) returns (p: Option<RecoveryPacket>)
    ensures Sampled(rec, s, acked, p)
    ensures IncreasingRec(rec) ==> p == SampleOf(rec, s, acked)
  {
    hide SampleOf;
    p := None;
    for k := 0 to |acked|
      invariant Sampled(rec, s, acked[..k], p)
    {
      assert acked[..k + 1] == acked[..k] + [acked[k]];
      for i := 0 to |rec|
        invariant p.Some? ==> p.value in rec && Awaited(p.value, s) && p.value.number in acked[..k + 1]
        invariant forall j | 0 <= j < |rec| && Awaited(rec[j], s) && rec[j].number in acked[..k] ::
            p.Some? && rec[j].number <= p.value.number
        invariant forall j | 0 <= j < i && Awaited(rec[j], s) && rec[j].number == acked[k] ::
            p.Some? && rec[j].number <= p.value.number
      {
        if rec[i].space == s && rec[i].number == acked[k] && rec[i].ackEliciting && rec[i].state.Outstanding? {
          if p.None? || rec[i].number > p.value.number {
            p := Some(rec[i]);
          }
        }
      }
    }
    assert acked[..|acked|] == acked;
    if IncreasingRec(rec) {
      SampleIsUnique(rec, s, acked, p);
    }
  }

  /**
   * Measured before the recovery list is marked, the sample is taken from every ack-eliciting packet just acknowledged.
   */
  lemma SampleSeesEveryAck(b: Books, s: Space, ack: AckFrame, p: Option<RecoveryPacket>, x: nat)
    requires Agree(b) && Sampled(b.recovery, s, AckApplied(b, s, ack).acked, p)
    requires IsAwaited(b.Get(s).sent, x) && x in AckRanges.Expand(ack)
    ensures p.Some? && x <= p.value.number && p.value.number in AckRanges.Expand(ack)
  {
    var ps := b.Get(s).sent;
    var i :| 0 <= i < |ps| && ps[i].number == x && ps[i].state.Outstanding? && ps[i].ackEliciting;
    assert SpaceAgrees(b, s);
    ProjectMembers(b.recovery, s, ps[i]);
    AckedExactly(b, s, ack, x);
    if p.Some? {
      AckedExactly(b, s, ack, p.value.number);
    }
    hide AckApplied;
  }

  // ---------------------------------------------------------------- the recovery timer

  lemma {:induction false} DueAscends(rec: seq<RecoveryPacket>, s: Space, largest: nat, delay: int, now: int)
    requires IncreasingRec(rec)
    ensures Ascending(DueNumbers(rec, s, largest, delay, now))
  {
    if rec != [] {
      var n := |rec| - 1;
      var before := DueNumbers(rec[..n], s, largest, delay, now);
      DueAscends(rec[..n], s, largest, delay, now);
      forall k | 0 <= k < |before| && rec[n].space == s
        ensures before[k] < rec[n].number
      {
        DueMembers(rec[..n], s, largest, delay, now, before[k]);
      }
    }
  }

  /** An outstanding recovery packet is outstanding in its tracker too. */
  lemma RecoveryPacketIsTracked(b: Books, i: nat)
    requires Agree(b) && i < |b.recovery| && b.recovery[i].state.Outstanding?
    ensures IsOutstanding(b.Get(b.recovery[i].space).sent, b.recovery[i].number)
  {
    var p := b.recovery[i];
    assert SpaceAgrees(b, p.space);
    ProjectMembers(b.recovery, p.space, p.Sent());
  }

  lemma DueIsRetirable(b: Books, s: Space, largest: nat, delay: int, now: int)
    requires Agree(b)
    ensures Retirable(b, s, DueNumbers(b.recovery, s, largest, delay, now))
  {
    var numbers := DueNumbers(b.recovery, s, largest, delay, now);
    DueAscends(b.recovery, s, largest, delay, now);
    forall k | 0 <= k < |numbers|
      ensures IsOutstanding(b.Get(s).sent, numbers[k])
    {
      DueMembers(b.recovery, s, largest, delay, now, numbers[k]);
      var i :| 0 <= i < |b.recovery| && Due(b.recovery[i], s, largest, delay, now)
          && b.recovery[i].number == numbers[k];
      RecoveryPacketIsTracked(b, i);
    }
  }

  /** The number of the oldest packet a timer waits for. */
  function Oldest(rec: seq<RecoveryPacket>, s: Space): Option<nat> {
    if rec == [] then None else
      var n := |rec| - 1;
      var before := Oldest(rec[..n], s);
      if before.None? && Awaited(rec[n], s) then Some(rec[n].number) else before
  }

  lemma {:induction false} OldestMeaning(rec: seq<RecoveryPacket>, s: Space)
    ensures Oldest(rec, s).Some? ==> exists i ::
        0 <= i < |rec| && Awaited(rec[i], s) && rec[i].number == Oldest(rec, s).value
            && forall j | 0 <= j < i :: !Awaited(rec[j], s)
    ensures forall i | 0 <= i < |rec| && Awaited(rec[i], s) :: Oldest(rec, s).Some?
  {
    if rec != [] {
      var n := |rec| - 1;
      OldestMeaning(rec[..n], s);
      assert forall i | 0 <= i < n :: rec[..n][i] == rec[i];
    }
  }

  /** The packets `on_recovery_timer` declares lost: all that are due, or else one probe. */
  function TimerLosses(b: Books, s: Space, lossDelay: Option<int>, probe: Option<int>, now: int): seq<nat> {
    var largest := b.Get(s).largest;
    var due :=
      if largest.Some? && lossDelay.Some?
      then DueNumbers(b.recovery, s, largest.value, lossDelay.value, now) else [];
    var timer := TimerFor(b.recovery, s, largest, lossDelay, probe);
    var oldest := Oldest(b.recovery, s);
    if due == [] && timer.Some? && timer.value.mode.Pto? && timer.value.deadline <= now && oldest.Some?
    then [oldest.value] else due
  }

  lemma TimerLossesAreRetirable(b: Books, s: Space, lossDelay: Option<int>, probe: Option<int>, now: int)
    requires Agree(b)
    ensures Retirable(b, s, TimerLosses(b, s, lossDelay, probe, now))
  {
    var largest := b.Get(s).largest;
    if largest.Some? && lossDelay.Some? {
      DueIsRetirable(b, s, largest.value, lossDelay.value, now);
    }
    var oldest := Oldest(b.recovery, s);
    if oldest.Some? {
      OldestMeaning(b.recovery, s);
      var i :| 0 <= i < |b.recovery| && Awaited(b.recovery[i], s) && b.recovery[i].number == oldest.value;
      RecoveryPacketIsTracked(b, i);
      assert Retirable(b, s, [oldest.value]);
    }
  }

  /** The timer step keeps the records in agreement and reports no packet a second time. */
  lemma TimerKeepsAgreement(
    b: Books, s: Space, lossDelay: Option<int>, probe: Option<int>, now: int, log: seq<Report>)
    requires Agree(b) && ReportedOnce(b, log)
    ensures var lost := TimerLosses(b, s, lossDelay, probe, now);
            var c := Retire(b, s, lost, Lost);
            Agree(c) && ReportedOnce(c, log + Tag(s, lost))
  {
    hide TimerLosses, Retire;
    var lost := TimerLosses(b, s, lossDelay, probe, now);
    TimerLossesAreRetirable(b, s, lossDelay, probe, now);
    RetireKeepsAgreement(b, s, lost, Lost);
    RetireReportsOnce(b, s, lost, Lost, log);
  }

  /** A timer that has expired always declares something lost, and one that has not never does. */
  lemma ExpiredTimerActs(b: Books, s: Space, lossDelay: Option<int>, probe: Option<int>, now: int)
    ensures var timer := TimerFor(b.recovery, s, b.Get(s).largest, lossDelay, probe);
            TimerLosses(b, s, lossDelay, probe, now) != [] <==> timer.Some? && timer.value.deadline <= now
  {
    hide Oldest, DueNumbers, EarliestLoss, LastSent;
    var largest := b.Get(s).largest;
    OldestMeaning(b.recovery, s);
    LastSentMeaning(b.recovery, s);
    if largest.Some? && lossDelay.Some? {
      DueIffEarliest(b.recovery, s, largest.value, lossDelay.value, now);
    }
  }

  lemma DueIffEarliest(rec: seq<RecoveryPacket>, s: Space, largest: nat, delay: int, now: int)
    ensures var e := EarliestLoss(rec, s, largest, delay);
            DueNumbers(rec, s, largest, delay, now) != [] <==> e.Some? && e.value <= now
  {
    var e, due := EarliestLoss(rec, s, largest, delay), DueNumbers(rec, s, largest, delay, now);
    EarliestLossMeaning(rec, s, largest, delay);
    if due != [] {
      DueMembers(rec, s, largest, delay, now, due[0]);
    }
    if e.Some? && e.value <= now {
      var i :| 0 <= i < |rec| && Awaited(rec[i], s) && rec[i].number < largest && rec[i].sentAt + delay == e.value;
      DueMembers(rec, s, largest, delay, now, rec[i].number);
      assert Due(rec[i], s, largest, delay, now);
    }
  }

  /** Every packet a timer declares lost was awaited, so an expired timer has fewer packets to wait for. */
  lemma ExpiredTimerMakesProgress(b: Books, s: Space, lossDelay: Option<int>, probe: Option<int>, now: int)
    requires TimerLosses(b, s, lossDelay, probe, now) != []
    ensures var after := Retire(b, s, TimerLosses(b, s, lossDelay, probe, now), Lost);
            AwaitedCount(after.recovery, s) < AwaitedCount(b.recovery, s)
  {
    var lost, largest := TimerLosses(b, s, lossDelay, probe, now), b.Get(s).largest;
    hide DueNumbers, Oldest, TimerFor, AwaitedCount;
    OldestMeaning(b.recovery, s);
    if largest.Some? && lossDelay.Some? {
      DueMembers(b.recovery, s, largest.value, lossDelay.value, now, lost[0]);
    }
    assert exists i :: 0 <= i < |b.recovery| && Awaited(b.recovery[i], s) && b.recovery[i].number in lost;
    MarkingLowersCount(b.recovery, s, lost);
  }

  /** After the step no packet of the space is overdue. */
  lemma NothingIsOverdue(b: Books, s: Space, lossDelay: Option<int>, probe: Option<int>, now: int, i: nat)
    requires Agree(b) && b.Get(s).largest.Some? && lossDelay.Some? && i < |b.recovery|
    ensures var after := Retire(b, s, TimerLosses(b, s, lossDelay, probe, now), Lost);
            !Due(after.recovery[i], s, b.Get(s).largest.value, lossDelay.value, now)
  {
    var largest, delay := b.Get(s).largest.value, lossDelay.value;
    DueMembers(b.recovery, s, largest, delay, now, b.recovery[i].number);
  }

  /** `mark_oldest_ack_eliciting_packet_lost`. */
  method MarkOldest(b: Books, s: Space) returns (c: Books, lost: seq<nat>)
    requires Agree(b)
    ensures lost == if Oldest(b.recovery, s).Some? then [Oldest(b.recovery, s).value] else []
    ensures c == Retire(b, s, lost, Lost)
  {
    hide Agree, MarkAll, MarkSent;
    var rec := b.recovery;
    for i := 0 to |rec|
      invariant Oldest(rec[..i], s).None?
    {
      assert rec[..i + 1][..i] == rec[..i];
      if rec[i].space == s && rec[i].state.Outstanding? && rec[i].ackEliciting {
        var number := rec[i].number;
        OldestOfPrefix(rec, s, i + 1);
        SingleMark(b, s, i);
        var sent := MarkLost(b.Get(s).sent, number);
        return b.Set(s, b.Get(s).(sent := sent)).(recovery := rec[i := rec[i].(state := Lost)]), [number];
      }
    }
    assert rec[..|rec|] == rec;
    ChangeNothing(b, s);
    return b, [];
  }

  lemma {:induction false} OldestOfPrefix(rec: seq<RecoveryPacket>, s: Space, k: nat)
    requires k <= |rec| && Oldest(rec[..k], s).Some?
    ensures Oldest(rec, s) == Oldest(rec[..k], s)
  {
    if k < |rec| {
      var n := |rec| - 1;
      assert rec[..n][..k] == rec[..k];
      OldestOfPrefix(rec[..n], s, k);
    } else {
      assert rec[..k] == rec;
    }
  }

  lemma SingleMark(b: Books, s: Space, i: nat)
    requires Agree(b) && i < |b.recovery| && b.recovery[i].space == s && b.recovery[i].state.Outstanding?
    ensures var number := b.recovery[i].number;
            && b.recovery[i := b.recovery[i].(state := Lost)] == MarkAll(b.recovery, s, [number], Lost)
            && MarkIfOutstanding(b.Get(s).sent, [number]) == MarkSent(b.Get(s).sent, [number], Lost)
            && Increasing(b.Get(s).sent)
  {
    hide MarkAll;
    assert SpaceAgrees(b, s);
    RecoveryPacketIsTracked(b, i);
    LostFold(b, s, [b.recovery[i].number]);
  }

  /** Marking outstanding packets lost one by one is marking them by number. */
  lemma LostFold(b: Books, s: Space, numbers: seq<nat>)
    requires Agree(b) && forall k | 0 <= k < |numbers| :: IsOutstanding(b.Get(s).sent, numbers[k])
    ensures MarkIfOutstanding(b.Get(s).sent, numbers) == MarkSent(b.Get(s).sent, numbers, Lost)
  {
    hide MarkIfOutstanding, MarkSent;
    var ps := b.Get(s).sent;
    assert SpaceAgrees(b, s);
    forall i | 0 <= i < |ps| && ps[i].number in numbers
      ensures ps[i].state.Outstanding?
    {
      assert IsOutstanding(ps, ps[i].number);
    }
  }

  method MarkAllLost(ps: seq<SentPacket>, numbers: seq<nat>) returns (r: seq<SentPacket>)
    requires Increasing(ps)
    ensures r == MarkIfOutstanding(ps, numbers)
  {
    hide MarkIfOutstanding;
    r := ps;
    for k := 0 to |numbers|
      invariant |r| == |ps| && r == MarkIfOutstanding(ps, numbers[..k])
    {
      r := MarkLost(r, numbers[k]);
      assert numbers[..k + 1] == numbers[..k] + [numbers[k]];
    }
    assert numbers[..|numbers|] == numbers;
  }

  /** The deadline `on_recovery_timer` reports: that of the timer once the overdue packets are gone. */
  function NextDeadline(b: Books, s: Space, lossDelay: Option<int>, probe: Option<int>, now: int): Option<int> {
    var largest := b.Get(s).largest;
    var due :=
      if largest.Some? && lossDelay.Some?
      then DueNumbers(b.recovery, s, largest.value, lossDelay.value, now) else [];
    var timer := TimerFor(MarkAll(b.recovery, s, due, Lost), s, largest, lossDelay, probe);
    if timer.Some? then Some(timer.value.deadline) else None
  }

  /** `on_recovery_timer` on the books of one space that has not been discarded. */
  method OnTimer(b: Books, s: Space, lossDelay: Option<int>, probe: Option<int>, now: int)
    returns (c: Books, lost: seq<nat>, deadline: Option<int>)
    requires Agree(b)
    ensures lost == TimerLosses(b, s, lossDelay, probe, now) && c == Retire(b, s, lost, Lost)
    ensures deadline == NextDeadline(b, s, lossDelay, probe, now)
    ensures Agree(c)
  {
    hide MarkAll, Agree;
    c, lost := TimeLosses(b, s, lossDelay, now);
    var timer := RecoveryTimer(c.recovery, s, c.Get(s).largest, lossDelay, probe);
    deadline := None;
    if lost == [] {
      ChangeNothing(b, s);
    }
    if timer.Some? {
      if timer.value.mode.Pto? && timer.value.deadline <= now && lost == [] {
        c, lost := MarkOldest(c, s);
      }
      deadline := Some(timer.value.deadline);
    }
    RetireKeepsAgreement(b, s, lost, Lost);
  }

  method TimeLosses(b: Books, s: Space, lossDelay: Option<int>, now: int) returns (c: Books, lost: seq<nat>)
    requires Agree(b)
    ensures lost == if b.Get(s).largest.Some? && lossDelay.Some?
                    then DueNumbers(b.recovery, s, b.Get(s).largest.value, lossDelay.value, now) else []
    ensures c == Retire(b, s, lost, Lost)
  {
    var largest := b.Get(s).largest;
    ChangeNothing(b, s);
    c, lost := b, [];
    if largest.Some? && lossDelay.Some? {
      var recovery, earliest;
      recovery, lost, earliest := DetectLosses(b.recovery, s, largest.value, lossDelay.value, now);
      assert SpaceAgrees(b, s);
      var sent := MarkAllLost(b.Get(s).sent, lost);
      DueIsRetirable(b, s, largest.value, lossDelay.value, now);
      LostFold(b, s, lost);
      c := b.Set(s, b.Get(s).(sent := sent)).(recovery := recovery);
    }
  }

  // ---------------------------------------------------------------- which stream ranges a report stands for

  /** The ranges recorded for a packet, by the first entry that names it. */
  function FindRanges(ranges: seq<PacketRanges>, s: Space, number: nat): seq<StreamRange> {
    if ranges == [] then []
    else if ranges[0].space == s && ranges[0].number == number then ranges[0].ranges
    else FindRanges(ranges[1..], s, number)
  }

  ghost predicate RangesNumbered(b: Books) {
    forall i | 0 <= i < |b.ranges| :: b.ranges[i].number < b.Get(b.ranges[i].space).next
  }

  lemma {:induction false} FindInAppended(ranges: seq<PacketRanges>, e: PacketRanges, s: Space, number: nat)
    requires forall i | 0 <= i < |ranges| :: ranges[i].space == e.space ==> ranges[i].number < e.number
    ensures FindRanges(ranges + [e], s, number) ==
            if e.space == s && e.number == number then e.ranges else FindRanges(ranges, s, number)
  {
    if ranges == [] {
      assert ranges + [e] == [e] && [e][1..] == [];
    } else {
      assert (ranges + [e])[1..] == ranges[1..] + [e];
      FindInAppended(ranges[1..], e, s, number);
    }
  }

  lemma {:induction false} FindNothing(ranges: seq<PacketRanges>, s: Space, number: nat)
    requires forall i | 0 <= i < |ranges| :: ranges[i].space == s ==> ranges[i].number < number
    ensures FindRanges(ranges, s, number) == []
  {
    if ranges != [] {
      FindNothing(ranges[1..], s, number);
    }
  }

  lemma FindCons(h: PacketRanges, rest: seq<PacketRanges>, s: Space, number: nat)
    ensures FindRanges([h] + rest, s, number) ==
            if h.space == s && h.number == number then h.ranges else FindRanges(rest, s, number)
  {
    assert ([h] + rest)[1..] == rest;
  }

  lemma KeepCons(h: PacketRanges, rest: seq<PacketRanges>, cleared: Space)
    ensures KeepRanges([h] + rest, cleared) == (if h.space == cleared then [] else [h]) + KeepRanges(rest, cleared)
  {
    assert ([h] + rest)[1..] == rest;
  }

  /** Clearing a space forgets its packets' ranges and no others. */
  lemma {:induction false} FindKept(ranges: seq<PacketRanges>, cleared: Space, s: Space, number: nat)
    ensures FindRanges(KeepRanges(ranges, cleared), s, number) ==
            if s == cleared then [] else FindRanges(ranges, s, number)
  {
    if ranges != [] {
      hide FindRanges, KeepRanges;
      var h, rest := ranges[0], ranges[1..];
      assert ranges == [h] + rest;
      FindKept(rest, cleared, s, number);
      FindCons(h, rest, s, number);
      KeepCons(h, rest, cleared);
      FindCons(h, KeepRanges(rest, cleared), s, number);
      assert [] + KeepRanges(rest, cleared) == KeepRanges(rest, cleared);
    }
  }

  /** A packet's ranges are found under its number, and sending it changes no other packet's. */
  lemma RangesAreFoundExactly(
    b: Books, s: Space, sentAt: int, ackEliciting: bool, frames: seq<Frame>, t: Space, number: nat)
    requires RangesNumbered(b)
    ensures var c := Sent(b, s, sentAt, ackEliciting, frames);
            && RangesNumbered(c)
            && FindRanges(c.ranges, t, number) ==
               if t == s && number == b.Get(s).next then StreamRanges(frames) else FindRanges(b.ranges, t, number)
  {
    hide FindRanges, StreamRanges;
    var ranges := StreamRanges(frames);
    if ranges == [] {
      if t == s && number == b.Get(s).next {
        FindNothing(b.ranges, s, number);
      }
    } else {
      FindInAppended(b.ranges, PacketRanges(s, b.Get(s).next, ranges), t, number);
    }
  }
}
