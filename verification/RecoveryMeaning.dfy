/**
 * The books on sent packets in plain terms: what sending and acknowledging leave behind, which packets a timer declares
 * lost and when it asks to be called again, and which packet the round trip is measured on.
 */
module RecoveryMeaning {
  import opened Common
  import opened Frames
  import opened Recovery
  import opened StreamSend
  import opened SentRecords
  import AckRanges

  // ---------------------------------------------------------------- sending

  /** `ranges` are those of the STREAM frames, which are the frames at the places `at`, in order. */
  ghost predicate AreStreamRanges(frames: seq<Frame>, ranges: seq<StreamRange>, at: seq<nat>) {
    && |at| == |ranges| && (forall i, j | 0 <= i < j < |at| :: at[i] < at[j])
    && (forall k: nat | k < |frames| :: k in at <==> frames[k].Stream?)
    && (forall i | 0 <= i < |at| ::
          && at[i] < |frames| && frames[at[i]].Stream?
          && var f := frames[at[i]].stream;
             ranges[i] == StreamRange(
               f.streamId, SendRange(if f.offsetPresent then f.offset else 0, |f.data|, f.fin)))
  }

  lemma {:induction false} StreamRangesAreThose(frames: seq<Frame>) returns (at: seq<nat>)
    ensures AreStreamRanges(frames, StreamRanges(frames), at)
  {
    if frames == [] {
      at := [];
    } else {
      var n := |frames| - 1;
      at := StreamRangesAreThose(frames[..n]);
      RangesNext(frames, StreamRanges(frames[..n]), at);
      if frames[n].Stream? {
        at := at + [n];
      }
    }
  }

  lemma RangesNext(frames: seq<Frame>, ranges: seq<StreamRange>, at: seq<nat>)
    requires frames != [] && AreStreamRanges(frames[..|frames| - 1], ranges, at)
    ensures var n := |frames| - 1;
            if frames[n].Stream? then
              var f := frames[n].stream;
              AreStreamRanges(
                frames, ranges + [StreamRange(f.streamId, SendRange(f.Start(), |f.data|, f.fin))], at + [n])
            else AreStreamRanges(frames, ranges, at)
  {
    var n := |frames| - 1;
    assert forall k: nat | k < n :: k in at <==> frames[..n][k].Stream?;
    assert n !in at;
  }

  /**
   * A packet that leaves takes the next number of its space, which is used up; it is outstanding in both records, with
   * its time and whether it is to be acknowledged; the ranges of its STREAM frames are kept under its number if it has
   * any; and nothing else changes.
   */
  lemma SentIsRecorded(b: Books, s: Space, sentAt: int, ackEliciting: bool, frames: seq<Frame>) returns (at: seq<nat>)
    ensures var c, n := Sent(b, s, sentAt, ackEliciting, frames), b.Get(s).next;
            && c.Get(s) == b.Get(s).(next := n + 1, sent := b.Get(s).sent + [SentPacket(n, ackEliciting, Outstanding)])
            && (forall t | t != s :: c.Get(t) == b.Get(t))
            && c.recovery == b.recovery + [RecoveryPacket(s, n, sentAt, ackEliciting, Outstanding)]
            && (if forall k | 0 <= k < |frames| :: !frames[k].Stream? then c.ranges == b.ranges else
                  && |c.ranges| == |b.ranges| + 1 && b.ranges <= c.ranges
                  && var e := c.ranges[|b.ranges|];
                     e.space == s && e.number == n && AreStreamRanges(frames, e.ranges, at))
  {
    hide StreamRanges;
    at := StreamRangesAreThose(frames);
    if at != [] {
      assert frames[at[0]].Stream?;
    }
  }

  /** Clearing a space leaves its next number alone and forgets the rest of it; the other spaces keep everything. */
  lemma ClearedExactly(b: Books, s: Space, p: RecoveryPacket)
    ensures var c := Cleared(b, s);
            && c.Get(s) == SpaceState([], b.Get(s).next, {}, [], None)
            && (forall t | t != s :: c.Get(t) == b.Get(t))
            && (p in c.recovery <==> p in b.recovery && p.space != s)
  {
    KeptMembers(b.recovery, s, p);
  }

  // ---------------------------------------------------------------- acknowledging

  /**
   * What an ACK frame makes of one sent packet: a packet it names is acknowledged, one it passes by three or more is
   * lost; a frame whose ranges name nothing changes nothing.
   */
  ghost function After(p: SentPacket, ack: AckFrame): PacketState {
    if p.state != Outstanding || AckRanges.Expand(ack) == {} then p.state
    else if p.number in AckRanges.Expand(ack) then Acknowledged
    else if p.ackEliciting && p.number + 3 <= ack.largest then Lost
    else Outstanding
  }

  /** An ACK frame moves every packet of its space to where it belongs, raises the largest acknowledged, and no more. */
  lemma AckLeaves(b: Books, s: Space, ack: AckFrame)
    ensures var c, ps := AckApplied(b, s, ack).books, b.Get(s).sent;
            && |c.Get(s).sent| == |ps|
            && (forall i | 0 <= i < |ps| :: c.Get(s).sent[i] == ps[i].(state := After(ps[i], ack)))
            && c.Get(s).largest == (if b.Get(s).largest.Some? && ack.largest < b.Get(s).largest.value
                                    then b.Get(s).largest else Some(ack.largest))
            && c.Get(s) == b.Get(s).(sent := c.Get(s).sent, largest := c.Get(s).largest)
            && (forall t | t != s :: c.Get(t) == b.Get(t)) && c.ranges == b.ranges
  {
    hide MarkAll, AckRanges.Expand;
  }

  /** The packet the round trip is measured on: of those waited for that the frame names, the one numbered highest. */
  lemma SampleExactly(b: Books, s: Space, ack: AckFrame)
    requires Agree(b)
    ensures var p, rec := SampleOf(b.recovery, s, AckApplied(b, s, ack).acked), b.recovery;
            && (p.Some? ==> p.value in rec && IsWaiting(p.value, s) && p.value.number in AckRanges.Expand(ack))
            && (forall i | 0 <= i < |rec| && IsWaiting(rec[i], s) && rec[i].number in AckRanges.Expand(ack) ::
                  p.Some? && rec[i].number <= p.value.number)
  {
    var acked, rec := AckApplied(b, s, ack).acked, b.recovery;
    hide AckApplied, SampleOf;
    SampleOfIsSampled(rec, s, acked);
    var p := SampleOf(rec, s, acked);
    if p.Some? {
      AckedExactly(b, s, ack, p.value.number);
    }
    forall i | 0 <= i < |rec| && IsWaiting(rec[i], s) && rec[i].number in AckRanges.Expand(ack)
      ensures rec[i].number in acked && Awaited(rec[i], s)
    {
      RecoveryPacketIsTracked(b, i);
      AckedExactly(b, s, ack, rec[i].number);
    }
  }

  // ---------------------------------------------------------------- the timer

  /** Waited for, passed by an acknowledgement and as old as the loss delay. */
  ghost predicate IsOverdue(p: RecoveryPacket, s: Space, largest: Option<nat>, lossDelay: Option<int>, now: int) {
    && IsWaiting(p, s) && largest.Some? && lossDelay.Some?
    && p.number < largest.value && p.sentAt + lossDelay.value <= now
  }

  /** No packet is late, and the last one waited for is as old as the probe delay. */
  ghost predicate ProbeIsDue(
    rec: seq<RecoveryPacket>, s: Space, largest: Option<nat>, lossDelay: Option<int>, probe: Option<int>, now: int)
  {
    && !(lossDelay.Some? && IsLate(rec, s, largest)) && probe.Some?
    && forall i | 0 <= i < |rec| && IsWaiting(rec[i], s) :: rec[i].sentAt + probe.value <= now
  }

  ghost predicate IsOldest(rec: seq<RecoveryPacket>, s: Space, i: nat) {
    i < |rec| && IsWaiting(rec[i], s) && forall j | 0 <= j < i :: !IsWaiting(rec[j], s)
  }

  lemma OverdueExactly(b: Books, s: Space, lossDelay: Option<int>, now: int, x: nat)
    ensures var largest, rec := b.Get(s).largest, b.recovery;
            (largest.Some? && lossDelay.Some? && x in DueNumbers(rec, s, largest.value, lossDelay.value, now)) <==>
            exists i :: 0 <= i < |rec| && IsOverdue(rec[i], s, largest, lossDelay, now) && rec[i].number == x
  {
    var largest, rec := b.Get(s).largest, b.recovery;
    if largest.Some? && lossDelay.Some? {
      DueMembers(rec, s, largest.value, lossDelay.value, now, x);
      assert forall p: RecoveryPacket ::
          Due(p, s, largest.value, lossDelay.value, now) <==> IsOverdue(p, s, largest, lossDelay, now);
    }
  }

  /** The packet is overdue, or it is the oldest one waited for and a probe is due. */
  ghost predicate IsGivenUp(b: Books, s: Space, lossDelay: Option<int>, probe: Option<int>, now: int, x: nat) {
    var largest, rec := b.Get(s).largest, b.recovery;
    exists i :: 0 <= i < |rec| && rec[i].number == x
                && (|| IsOverdue(rec[i], s, largest, lossDelay, now)
                    || (IsOldest(rec, s, i) && ProbeIsDue(rec, s, largest, lossDelay, probe, now)))
  }

  /**
   * An expired timer declares lost exactly the overdue packets of its space, or else, if a probe is due, the oldest
   * packet waited for.
   */
  lemma TimerDeclaresExactly(b: Books, s: Space, lossDelay: Option<int>, probe: Option<int>, now: int, x: nat)
    ensures x in TimerLosses(b, s, lossDelay, probe, now) <==> IsGivenUp(b, s, lossDelay, probe, now, x)
  {
    hide DueNumbers, TimerFor, Oldest;
    var largest, rec := b.Get(s).largest, b.recovery;
    var due :=
      if largest.Some? && lossDelay.Some? then DueNumbers(rec, s, largest.value, lossDelay.value, now) else [];
    OverdueExactly(b, s, lossDelay, now, x);
    if due != [] {
      OverdueExactly(b, s, lossDelay, now, due[0]);
      assert IsLate(rec, s, largest);
    } else {
      forall i | 0 <= i < |rec|
        ensures !IsOverdue(rec[i], s, largest, lossDelay, now)
      {
        OverdueExactly(b, s, lossDelay, now, rec[i].number);
      }
      ProbeExactly(b, s, lossDelay, probe, now);
      OldestExactly(rec, s);
    }
  }

  lemma OldestExactly(rec: seq<RecoveryPacket>, s: Space)
    ensures Oldest(rec, s).Some? <==> exists i: nat :: IsOldest(rec, s, i)
    ensures forall i: nat | IsOldest(rec, s, i) :: Oldest(rec, s) == Some(rec[i].number)
  {
    hide Oldest;
    OldestMeaning(rec, s);
    assert forall p: RecoveryPacket :: Awaited(p, s) == IsWaiting(p, s);
    if Oldest(rec, s).Some? {
      var i :| 0 <= i < |rec| && Awaited(rec[i], s) && rec[i].number == Oldest(rec, s).value
          && forall j | 0 <= j < i :: !Awaited(rec[j], s);
      assert IsOldest(rec, s, i);
    }
  }

  /** The probe timer has expired exactly if a probe is due and some packet is waited for. */
  lemma ProbeExactly(b: Books, s: Space, lossDelay: Option<int>, probe: Option<int>, now: int)
    ensures var largest, rec := b.Get(s).largest, b.recovery;
            var timer := TimerFor(rec, s, largest, lossDelay, probe);
            timer.Some? && timer.value.mode.Pto? && timer.value.deadline <= now <==>
            ProbeIsDue(rec, s, largest, lossDelay, probe, now) && exists i :: 0 <= i < |rec| && IsWaiting(rec[i], s)
  {
    hide TimerFor;
    TimerMeaning(b.recovery, s, b.Get(s).largest, lossDelay, probe);
  }

  /** Still waited for once the overdue packets are gone. */
  ghost predicate StillWaits(p: RecoveryPacket, s: Space, largest: Option<nat>, lossDelay: Option<int>, now: int) {
    IsWaiting(p, s) && !IsOverdue(p, s, largest, lossDelay, now)
  }

  /** Such a packet has been passed by an acknowledgement, and a loss delay is known. */
  ghost predicate IsPassed(p: RecoveryPacket, s: Space, largest: Option<nat>, lossDelay: Option<int>, now: int) {
    StillWaits(p, s, largest, lossDelay, now) && largest.Some? && lossDelay.Some? && p.number < largest.value
  }

  /**
   * When the timer asks to be called next, in terms of the packets that are not overdue: when the first of them that an
   * acknowledgement has passed will be, if there is one, and that is later than now; otherwise a probe delay after the
   * last of them was sent, if there is one and the space may probe; otherwise never.
   */
  ghost predicate IsDeadline(
    b: Books, s: Space, lossDelay: Option<int>, probe: Option<int>, now: int, d: Option<int>)
  {
    var rec, largest := b.recovery, b.Get(s).largest;
    if exists i :: 0 <= i < |rec| && IsPassed(rec[i], s, largest, lossDelay, now) then
      && d.Some? && now < d.value
      && (exists i :: 0 <= i < |rec| && IsPassed(rec[i], s, largest, lossDelay, now)
                      && d.value == rec[i].sentAt + lossDelay.value)
      && (forall i | 0 <= i < |rec| && IsPassed(rec[i], s, largest, lossDelay, now) ::
            d.value <= rec[i].sentAt + lossDelay.value)
    else if probe.Some? && exists i :: 0 <= i < |rec| && StillWaits(rec[i], s, largest, lossDelay, now) then
      && d.Some?
      && (exists i :: 0 <= i < |rec| && StillWaits(rec[i], s, largest, lossDelay, now)
                      && d.value == rec[i].sentAt + probe.value)
      && (forall i | 0 <= i < |rec| && StillWaits(rec[i], s, largest, lossDelay, now) ::
            rec[i].sentAt + probe.value <= d.value)
    else d.None?
  }

  lemma DeadlineExactly(b: Books, s: Space, lossDelay: Option<int>, probe: Option<int>, now: int)
    requires Agree(b)
    ensures IsDeadline(b, s, lossDelay, probe, now, NextDeadline(b, s, lossDelay, probe, now))
  {
    hide MarkAll, DueNumbers, TimerFor, Agree;
    var rec, largest := b.recovery, b.Get(s).largest;
    var due :=
      if largest.Some? && lossDelay.Some? then DueNumbers(rec, s, largest.value, lossDelay.value, now) else [];
    var left := MarkAll(rec, s, due, Lost);
    TimerMeaning(left, s, largest, lossDelay, probe);
    forall i | 0 <= i < |rec|
      ensures IsWaiting(left[i], s) <==> StillWaits(rec[i], s, largest, lossDelay, now)
      ensures left[i].sentAt == rec[i].sentAt && left[i].number == rec[i].number
    {
      OverdueIsMarked(b, s, lossDelay, now, i);
    }
  }

  lemma OverdueIsMarked(b: Books, s: Space, lossDelay: Option<int>, now: int, i: nat)
    requires Agree(b) && i < |b.recovery|
    ensures var rec, largest := b.recovery, b.Get(s).largest;
            var due := if largest.Some? && lossDelay.Some?
                       then DueNumbers(rec, s, largest.value, lossDelay.value, now) else [];
            IsWaiting(rec[i], s) ==> (rec[i].number in due <==> IsOverdue(rec[i], s, largest, lossDelay, now))
  {
    hide DueNumbers;
    var rec := b.recovery;
    OverdueExactly(b, s, lossDelay, now, rec[i].number);
    assert forall j | 0 <= j < |rec| && rec[j].space == s == rec[i].space && rec[j].number == rec[i].number :: j == i;
  }
}
