/** The send side of a stream (stream.hpp): unsent, lost and acknowledged ranges, and FIN. */
module StreamSend {
  import opened Common
  import opened Frames

  datatype SendRange = SendRange(offset: nat, length: nat, fin: bool) {
    function End(): nat {
      offset + length
    }

    predicate Covers(other: SendRange) {
      offset <= other.offset && other.End() <= End() && (other.fin ==> fin)
    }
  }

  datatype Emission = Emission(frame: StreamFrame, range: SendRange, retransmission: bool)

  // ---------------------------------------------------------------- specification

  /** Some single range of the list covers `r`. */
  predicate CoveredBy(ranges: seq<SendRange>, r: SendRange) {
    exists i :: 0 <= i < |ranges| && ranges[i].Covers(r)
  }

  /** The sender as a value; `stop` holds the error code of a STOP_SENDING frame. */
  datatype Sender = Sender(
    streamId: nat, maxData: nat, bytes: seq<byte>, nextUnsent: nat,
    finished: bool, finSent: bool, finAcked: bool, stop: Option<nat>,
    lost: seq<SendRange>, acked: seq<SendRange>)
  {
    predicate IsAcked(r: SendRange) {
      CoveredBy(acked, r)
    }

    predicate CoversLostFin(r: SendRange) {
      exists i :: 0 <= i < |lost| && lost[i].fin && r.Covers(lost[i])
    }

    predicate ValidSent(r: SendRange) {
      r.End() <= nextUnsent && r.End() <= |bytes| && (r.fin ==> finished && r.End() == |bytes|)
    }

    /** Everything sent lies inside the written bytes and the credit; lost ranges have been sent. */
    ghost predicate Valid() {
      && nextUnsent <= |bytes| <= U64_MAX && nextUnsent <= maxData <= U64_MAX
      && (forall i | 0 <= i < |lost| :: ValidSent(lost[i]))
    }

    predicate Blocked() {
      stop.None? && nextUnsent < |bytes| && maxData <= nextUnsent
    }

    predicate HasUnsent() {
      stop.None? && nextUnsent < |bytes|
    }

    predicate HasRetransmittable() {
      stop.None? && exists i :: 0 <= i < |lost| && !IsAcked(lost[i])
    }
  }

  function NewSender(streamId: nat, maxData: nat): Sender {
    Sender(streamId, maxData, [], 0, false, false, false, None, [], [])
  }

  /** The frame that carries `r`. */
  function Emit(s: Sender, r: SendRange, retransmission: bool): Emission
    requires r.End() <= |s.bytes|
  {
    Emission(StreamFrame(s.streamId, r.offset, r.offset != 0, true, r.fin, s.bytes[r.offset..r.End()]),
             r, retransmission)
  }

  predicate CanAppend(s: Sender, data: seq<byte>) {
    s.stop.None? && !s.finished && |s.bytes| + |data| <= U64_MAX
  }

  function Append(s: Sender, data: seq<byte>): Sender {
    if CanAppend(s, data) then s.(bytes := s.bytes + data) else s
  }

  function Finish(s: Sender): Sender {
    if s.stop.None? then s.(finished := true) else s
  }

  function Credit(s: Sender, limit: nat): Sender {
    s.(maxData := Max(s.maxData, limit))
  }

  function Stop(s: Sender, code: nat): Sender {
    s.(stop := Some(code), lost := [])
  }

  /** The lost queue without the acknowledged ranges at its front. */
  function SkipAcked(acked: seq<SendRange>, lost: seq<SendRange>): seq<SendRange> {
    if lost == [] || !CoveredBy(acked, lost[0]) then lost else SkipAcked(acked, lost[1..])
  }

  lemma SkipAckedIsSuffix(acked: seq<SendRange>, lost: seq<SendRange>) returns (k: nat)
    ensures k <= |lost| && SkipAcked(acked, lost) == lost[k..]
    ensures forall i | 0 <= i < k :: CoveredBy(acked, lost[i])
  {
    if lost == [] || !CoveredBy(acked, lost[0]) {
      k := 0;
    } else {
      k := SkipAckedIsSuffix(acked, lost[1..]);
      k := k + 1;
    }
  }

  function PopLost(s: Sender, max: nat): (Sender, Option<Emission>)
    requires s.Valid() && s.lost != []
  {
    var r, rest := s.lost[0], s.lost[1..];
    if max == 0 && 0 < r.length then
      (s, None)
    else if max < r.length then
      var head, tail := SendRange(r.offset, max, false), SendRange(r.offset + max, r.length - max, r.fin);
      (s.(lost := [tail] + rest), Some(Emit(s, head, true)))
    else
      (s.(lost := rest, finSent := s.finSent || r.fin), Some(Emit(s, r, true)))
  }

  function PopNew(s: Sender, max: nat): (Sender, Option<Emission>)
    requires s.Valid()
  {
    if s.nextUnsent < |s.bytes| && 0 < max then
      if s.maxData <= s.nextUnsent then (s, None) else
        var length := Min(max, Min(|s.bytes| - s.nextUnsent, s.maxData - s.nextUnsent));
        var fin := s.finished && s.nextUnsent + length == |s.bytes| && |s.bytes| <= s.maxData;
        var r := SendRange(s.nextUnsent, length, fin);
        (s.(nextUnsent := s.nextUnsent + length, finSent := s.finSent || fin), Some(Emit(s, r, false)))
    else if s.finished && !s.finSent && !s.finAcked && s.nextUnsent == |s.bytes| && |s.bytes| <= s.maxData then
      (s.(finSent := true), Some(Emit(s, SendRange(|s.bytes|, 0, true), false)))
    else
      (s, None)
  }

  /** The next frame of at most `max` data bytes: lost ranges first, then new data, then a bare FIN. */
  function Pop(s: Sender, max: nat): (Sender, Option<Emission>)
    requires s.Valid()
  {
    if s.stop.Some? then (s, None) else
      var kept := SkipAcked(s.acked, s.lost);
      KeptIsValid(s);
      var t := s.(lost := kept);
      if kept != [] then PopLost(t, max) else PopNew(t, max)
  }

  lemma KeptIsValid(s: Sender)
    requires s.Valid()
    ensures s.(lost := SkipAcked(s.acked, s.lost)).Valid()
  {
    var k := SkipAckedIsSuffix(s.acked, s.lost);
  }

  /** What a pop leaves alone, and that the frame carries exactly the bytes of its range. */
  lemma PopFrameCarriesRange(s: Sender, max: nat)
    requires s.Valid()
    ensures var (t, e) := Pop(s, max);
            && t == s.(lost := t.lost, nextUnsent := t.nextUnsent, finSent := t.finSent)
            && s.nextUnsent <= t.nextUnsent
            && (e.Some? ==>
                  && e.value.range.End() <= |s.bytes|
                  && e.value == Emit(s, e.value.range, e.value.retransmission))
  {
    KeptIsValid(s);
  }

  // ---------------------------------------------------------------- what a pop hands out

  /** All bytes of `r`, and its FIN if it has one, are in `outer` too. */
  ghost predicate Inside(r: SendRange, outer: SendRange) {
    outer.offset <= r.offset && r.offset + r.length <= outer.offset + outer.length && (r.fin ==> outer.fin)
  }

  /** One acknowledged range has all of `r`. */
  ghost predicate InOne(acked: seq<SendRange>, r: SendRange) {
    exists j :: 0 <= j < |acked| && Inside(r, acked[j])
  }

  lemma InOneExactly(acked: seq<SendRange>, r: SendRange)
    ensures CoveredBy(acked, r) <==> InOne(acked, r)
  {
    assert forall j | 0 <= j < |acked| :: acked[j].Covers(r) <==> Inside(r, acked[j]);
  }

  /** The first lost range that is not acknowledged. */
  ghost predicate FirstLost(s: Sender, k: nat) {
    k < |s.lost| && !InOne(s.acked, s.lost[k]) && forall i | 0 <= i < k :: InOne(s.acked, s.lost[i])
  }

  /** A frame of stream data as it goes out: with a length always, with an offset unless it is zero. */
  ghost predicate Carries(e: Emission, s: Sender, offset: nat, end: nat, fin: bool) {
    && offset <= end <= |s.bytes| && e.range == SendRange(offset, end - offset, fin)
    && e.frame == StreamFrame(s.streamId, offset, offset != 0, true, fin, s.bytes[offset..end])
  }

  lemma LostIsFound(s: Sender) returns (k: nat)
    requires s.HasRetransmittable()
    ensures FirstLost(s, k) && SkipAcked(s.acked, s.lost) == s.lost[k..]
  {
    k := SkipAckedIsSuffix(s.acked, s.lost);
    assert k < |s.lost| by {
      var i :| 0 <= i < |s.lost| && !s.IsAcked(s.lost[i]);
    }
    SkipStops(s.acked, s.lost);
    assert s.lost[k..][0] == s.lost[k];
    forall i | 0 <= i <= k
      ensures CoveredBy(s.acked, s.lost[i]) <==> InOne(s.acked, s.lost[i])
    {
      InOneExactly(s.acked, s.lost[i]);
    }
  }

  lemma {:induction false} SkipStops(acked: seq<SendRange>, lost: seq<SendRange>)
    ensures SkipAcked(acked, lost) != [] ==> !CoveredBy(acked, SkipAcked(acked, lost)[0])
  {
    if lost != [] && CoveredBy(acked, lost[0]) {
      SkipStops(acked, lost[1..]);
    }
  }

  /**
   * Lost data is sent again first: the whole of the first unacknowledged range, or exactly the size asked for with the
   * rest staying first in the queue.
   */
  lemma PopSendsLostData(s: Sender, k: nat, max: nat)
    requires s.Valid() && s.stop.None? && FirstLost(s, k)
    ensures var (t, e) := Pop(s, max);
            var r := s.lost[k];
            && t == s.(lost := t.lost, finSent := t.finSent)
            && (e.None? <==> max == 0 && 0 < r.length)
            && (e.None? ==> t.lost == s.lost[k..] && t.finSent == s.finSent)
            && (e.Some? && r.length <= max ==>
                  && e.value.retransmission && Carries(e.value, s, r.offset, r.offset + r.length, r.fin)
                  && t.lost == s.lost[k + 1..] && t.finSent == (s.finSent || r.fin))
            && (e.Some? && max < r.length ==>
                  && e.value.retransmission && Carries(e.value, s, r.offset, r.offset + max, false)
                  && t.lost == [SendRange(r.offset + max, r.length - max, r.fin)] + s.lost[k + 1..]
                  && t.finSent == s.finSent)
  {
    hide SkipAcked;
    FirstIsKept(s, k);
    KeptIsValid(s);
    assert s.lost[k..][0] == s.lost[k] && s.lost[k..][1..] == s.lost[k + 1..];
  }

  lemma FirstIsKept(s: Sender, k: nat)
    requires FirstLost(s, k)
    ensures SkipAcked(s.acked, s.lost) == s.lost[k..]
  {
    var n := SkipAckedIsSuffix(s.acked, s.lost);
    SkipStops(s.acked, s.lost);
    forall i | 0 <= i <= k
      ensures CoveredBy(s.acked, s.lost[i]) <==> InOne(s.acked, s.lost[i])
    {
      InOneExactly(s.acked, s.lost[i]);
    }
    assert n < |s.lost| ==> s.lost[n..][0] == s.lost[n];
  }

  /**
   * With nothing lost, the next frame is as long as it may be: it reaches the size asked for, the end of what was
   * written or the stream's limit. The FIN goes with the last byte, or on its own when all bytes are sent.
   */
  lemma PopSendsNewData(s: Sender, max: nat)
    requires s.Valid() && s.stop.None? && !s.HasRetransmittable()
    ensures var (t, e) := Pop(s, max);
            var data := s.nextUnsent < |s.bytes| && s.nextUnsent < s.maxData && 0 < max;
            var bare := s.finished && !s.finSent && !s.finAcked && s.nextUnsent == |s.bytes|;
            && t == s.(lost := [], nextUnsent := t.nextUnsent, finSent := t.finSent)
            && (e.Some? <==> data || bare)
            && (e.None? ==> t.nextUnsent == s.nextUnsent && t.finSent == s.finSent)
            && (e.Some? ==> !e.value.retransmission)
            && (data ==>
                  && s.nextUnsent < t.nextUnsent <= |s.bytes| && t.nextUnsent <= s.maxData
                  && t.nextUnsent - s.nextUnsent <= max
                  && (t.nextUnsent - s.nextUnsent == max || t.nextUnsent == |s.bytes| || t.nextUnsent == s.maxData)
                  && var fin := s.finished && t.nextUnsent == |s.bytes|;
                     Carries(e.value, s, s.nextUnsent, t.nextUnsent, fin) && t.finSent == (s.finSent || fin))
            && (bare ==>
                  Carries(e.value, s, |s.bytes|, |s.bytes|, true) && t.nextUnsent == s.nextUnsent && t.finSent)
  {
    hide SkipAcked;
    NothingIsKept(s);
    KeptIsValid(s);
  }

  lemma NothingIsKept(s: Sender)
    requires s.stop.None? && !s.HasRetransmittable()
    ensures SkipAcked(s.acked, s.lost) == []
  {
    var k := SkipAckedIsSuffix(s.acked, s.lost);
    SkipStops(s.acked, s.lost);
    assert k < |s.lost| ==> SkipAcked(s.acked, s.lost)[0] == s.lost[k];
  }

  /** A stopped stream hands out nothing. */
  lemma PopAfterStop(s: Sender, max: nat)
    requires s.Valid() && s.stop.Some?
    ensures Pop(s, max) == (s, None)
  {
  }

  /** The queue without the ranges `r` covers. */
  function Uncovered(lost: seq<SendRange>, r: SendRange): seq<SendRange> {
    if lost == [] then [] else
      var rest := Uncovered(lost[..|lost| - 1], r);
      if r.Covers(lost[|lost| - 1]) then rest else rest + [lost[|lost| - 1]]
  }

  lemma UncoveredMembers(lost: seq<SendRange>, r: SendRange, x: SendRange)
    ensures x in Uncovered(lost, r) <==> x in lost && !r.Covers(x)
  {
    if lost != [] {
      UncoveredMembers(lost[..|lost| - 1], r, x);
      assert lost == lost[..|lost| - 1] + [lost[|lost| - 1]];
    }
  }

  /** The range as it is recorded: a FIN that is not outstanding is not acknowledged. */
  function Acknowledged(s: Sender, r: SendRange): SendRange {
    if r.fin && !s.finSent && !s.CoversLostFin(r) then r.(fin := false) else r
  }

  function OnAcked(s: Sender, r: SendRange): Sender {
    if !s.ValidSent(r) then s else
      var a := Acknowledged(s, r);
      s.(acked := s.acked + [a], lost := Uncovered(s.lost, a), finAcked := s.finAcked || a.fin)
  }

  function OnLost(s: Sender, r: SendRange): Sender {
    if s.stop.Some? || !s.ValidSent(r) || (r.fin && !s.finSent) || s.IsAcked(r) then s
    else s.(lost := s.lost + [r], finSent := s.finSent && !r.fin)
  }

  // ---------------------------------------------------------------- what answers do

  /** A range that can have been sent: within the bytes sent so far, with a FIN only at the end of an ended stream. */
  ghost predicate MayBeSent(s: Sender, r: SendRange) {
    var end := r.offset + r.length;
    end <= s.nextUnsent && end <= |s.bytes| && (r.fin ==> s.finished && end == |s.bytes|)
  }

  /** The entries of `lost` at the places `at`, which are those not inside `r`, in order. */
  ghost predicate LeftOver(lost: seq<SendRange>, r: SendRange, left: seq<SendRange>, at: seq<nat>) {
    && |at| == |left| && (forall i, j | 0 <= i < j < |at| :: at[i] < at[j])
    && (forall i | 0 <= i < |at| :: at[i] < |lost| && left[i] == lost[at[i]])
    && (forall k: nat | k < |lost| :: k in at <==> !Inside(lost[k], r))
  }

  lemma {:induction false} UncoveredIsLeftOver(lost: seq<SendRange>, r: SendRange) returns (at: seq<nat>)
    ensures LeftOver(lost, r, Uncovered(lost, r), at)
  {
    if lost == [] {
      at := [];
    } else {
      var n := |lost| - 1;
      at := UncoveredIsLeftOver(lost[..n], r);
      LeftOverNext(lost, r, Uncovered(lost[..n], r), at);
      if !r.Covers(lost[n]) {
        at := at + [n];
      }
    }
  }

  lemma LeftOverNext(lost: seq<SendRange>, r: SendRange, left: seq<SendRange>, at: seq<nat>)
    requires lost != [] && LeftOver(lost[..|lost| - 1], r, left, at)
    ensures var n := |lost| - 1;
            if r.Covers(lost[n]) then LeftOver(lost, r, left, at) else LeftOver(lost, r, left + [lost[n]], at + [n])
  {
    var n := |lost| - 1;
    assert forall k: nat | k < n :: k in at <==> !Inside(lost[..n][k], r);
    assert n !in at;
  }

  /**
   * An acknowledged range that can have been sent is recorded, with its FIN exactly if a FIN is outstanding or queued
   * inside it; the lost ranges inside it leave the queue, and the others keep their order. Any other range changes
   * nothing.
   */
  lemma AckIsRecorded(s: Sender, r: SendRange) returns (at: seq<nat>)
    ensures var t := OnAcked(s, r);
            var fin := r.fin && (s.finSent || exists i :: 0 <= i < |s.lost| && s.lost[i].fin && Inside(s.lost[i], r));
            && (!MayBeSent(s, r) ==> t == s)
            && (MayBeSent(s, r) ==>
                  && t == s.(acked := s.acked + [r.(fin := fin)], lost := t.lost, finAcked := s.finAcked || fin)
                  && LeftOver(s.lost, r.(fin := fin), t.lost, at))
  {
    hide Uncovered;
    var a := Acknowledged(s, r);
    assert forall i | 0 <= i < |s.lost| :: r.Covers(s.lost[i]) <==> Inside(s.lost[i], r);
    at := UncoveredIsLeftOver(s.lost, a);
  }

  /**
   * A lost range is queued, last, exactly if the stream is not stopped, the range can have been sent, its FIN is
   * outstanding and no acknowledged range has all of it; its FIN is then to be sent again.
   */
  lemma LossIsQueued(s: Sender, r: SendRange)
    ensures OnLost(s, r) ==
            if s.stop == None && MayBeSent(s, r) && (r.fin ==> s.finSent) && !InOne(s.acked, r)
            then s.(lost := s.lost + [r], finSent := s.finSent && !r.fin) else s
  {
    InOneExactly(s.acked, r);
  }

  // ---------------------------------------------------------------- implementation

  class StreamSendState {
    var streamId: nat
    var maxData: nat
    var bytes: seq<byte>
    var nextUnsent: nat
    var finished: bool
    var finSent: bool
    var finAcked: bool
    var stop: Option<nat>
    var lost: seq<SendRange>
    var acked: seq<SendRange>

    ghost function Abstract(): Sender
      reads this
    {
      Sender(streamId, maxData, bytes, nextUnsent, finished, finSent, finAcked, stop, lost, acked)
    }

    ghost predicate Valid()
      reads this
    {
      Abstract().Valid()
    }

    constructor (streamId: nat, maxData: nat)
      requires maxData <= U64_MAX
      ensures Valid() && Abstract() == NewSender(streamId, maxData)
    {
      this.streamId, this.maxData, bytes, nextUnsent := streamId, maxData, [], 0;
      finished, finSent, finAcked, stop, lost, acked := false, false, false, None, [], [];
    }

    method AppendData(data: seq<byte>) returns (ok: bool)
      requires Valid()
      modifies this`bytes
      ensures Valid() && Abstract() == Append(old(Abstract()), data)
      ensures ok == CanAppend(old(Abstract()), data)
    {
      if stop.Some? || finished || U64_MAX - |data| < |bytes| {
        return false;
      }
      bytes := bytes + data;
      return true;
    }

    method FinishStream() returns (ok: bool)
      requires Valid()
      modifies this`finished
      ensures Valid() && Abstract() == Finish(old(Abstract()))
      ensures ok == old(stop).None?
    {
      if stop.Some? {
        return false;
      }
      finished := true;
      return true;
    }

    method RangeAcked(r: SendRange) returns (b: bool)
      ensures b == Abstract().IsAcked(r)
    {
      for i := 0 to |acked|
        invariant forall k | 0 <= k < i :: !acked[k].Covers(r)
      {
        if acked[i].Covers(r) {
          return true;
        }
      }
      return false;
    }

    method RangeCoversLostFin(r: SendRange) returns (b: bool)
      ensures b == Abstract().CoversLostFin(r)
    {
      for i := 0 to |lost|
        invariant forall k | 0 <= k < i :: !(lost[k].fin && r.Covers(lost[k]))
      {
        if lost[i].fin && r.Covers(lost[i]) {
          return true;
        }
      }
      return false;
    }

    method MakeFrame(r: SendRange, retransmission: bool) returns (e: Emission)
      requires r.End() <= |bytes|
      ensures e == Emit(Abstract(), r, retransmission)
    {
      var data := [];
      for index := 0 to r.length
        invariant data == bytes[r.offset..r.offset + index]
      {
        data := data + [bytes[r.offset + index]];
      }
      e := Emission(StreamFrame(streamId, r.offset, r.offset != 0, true, r.fin, data), r, retransmission);
    }

    method PopFrame(max: nat) returns (e: Option<Emission>)
      requires Valid()
      modifies this`lost, this`nextUnsent, this`finSent
      ensures Valid()
      ensures (Abstract(), e) == Pop(old(Abstract()), max)
      decreases |lost|
    {
      if stop.Some? {
        return None;
      }
      if lost != [] {
        e := PopLostFrame(max);
        return;
      }
      if nextUnsent < |bytes| && 0 < max {
        if maxData <= nextUnsent {
          return None;
        }
        var length := Min(max, Min(|bytes| - nextUnsent, maxData - nextUnsent));
        var r := SendRange(nextUnsent, length,
                           finished && nextUnsent + length == |bytes| && |bytes| <= maxData);
        nextUnsent := nextUnsent + length;
        if r.fin {
          finSent := true;
        }
        var made := MakeFrame(r, false);
        return Some(made);
      }
      if finished && !finSent && !finAcked && nextUnsent == |bytes| && |bytes| <= maxData {
        finSent := true;
        var made := MakeFrame(SendRange(|bytes|, 0, true), false);
        return Some(made);
      }
      return None;
    }

    /** The first branch of `PopFrame`: take the front of the lost queue, skipping what has been acknowledged. */
    method PopLostFrame(max: nat) returns (e: Option<Emission>)
      requires Valid() && stop.None? && lost != []
      modifies this`lost, this`nextUnsent, this`finSent
      ensures Valid()
      ensures (Abstract(), e) == Pop(old(Abstract()), max)
      decreases |lost|, 0
    {
      var r := lost[0];
      var isAcked := RangeAcked(r);
      lost := lost[1..];
      if isAcked {
        e := PopFrame(max);
        return;
      }
      assert SkipAcked(acked, old(lost)) == old(lost);
      if 0 < r.length && max == 0 {
        lost := [r] + lost;
        assert lost == old(lost);
        return None;
      }
      if max < r.length && 0 < max {
        var remaining := SendRange(r.offset + max, r.length - max, r.fin);
        r := SendRange(r.offset, max, false);
        lost := [remaining] + lost;
      }
      if r.fin {
        finSent := true;
      }
      var made := MakeFrame(r, true);
      return Some(made);
    }

    method OnRangeAcked(range: SendRange)
      requires Valid()
      modifies this`acked, this`lost, this`finAcked
      ensures Valid() && Abstract() == OnAcked(old(Abstract()), range)
    {
      if |bytes| < range.offset || |bytes| - range.offset < range.length || nextUnsent < range.End()
         || (range.fin && (!finished || range.End() != |bytes|)) {
        return;
      }
      var r := range;
      if r.fin && !finSent {
        var covers := RangeCoversLostFin(r);
        if !covers {
          r := r.(fin := false);
        }
      }
      if r.fin && (!finished || r.End() != |bytes|) {
        r := r.(fin := false);
      }
      acked := acked + [r];
      var kept := [];
      for i := 0 to |lost|
        invariant kept == Uncovered(lost[..i], r)
      {
        assert lost[..i + 1][..i] == lost[..i];
        if !r.Covers(lost[i]) {
          kept := kept + [lost[i]];
        }
      }
      assert lost[..|lost|] == lost;
      UncoveredIsValid(Abstract(), r);
      lost := kept;
      if r.fin {
        finAcked := true;
      }
    }

    method OnRangeLost(r: SendRange)
      requires Valid()
      modifies this`lost, this`finSent
      ensures Valid() && Abstract() == OnLost(old(Abstract()), r)
    {
      if stop.Some? {
        return;
      }
      if |bytes| < r.offset || |bytes| - r.offset < r.length || nextUnsent < r.End()
         || (r.fin && (!finished || r.End() != |bytes|)) {
        return;
      }
      if r.fin && !finSent {
        return;
      }
      var isAcked := RangeAcked(r);
      if isAcked {
        return;
      }
      if r.fin {
        finSent := false;
      }
      lost := lost + [r];
    }

    method UpdateMaxData(limit: nat)
      requires Valid() && limit <= U64_MAX
      modifies this`maxData
      ensures Valid() && Abstract() == Credit(old(Abstract()), limit)
    {
      maxData := Max(maxData, limit);
    }

    method StopSending(id: nat, code: nat) returns (ok: bool)
      requires Valid()
      modifies this`stop, this`lost
      ensures Valid() && ok == (id == streamId)
      ensures Abstract() == if ok then Stop(old(Abstract()), code) else old(Abstract())
    {
      if id != streamId {
        return false;
      }
      stop, lost := Some(code), [];
      return true;
    }

    method RetransmittableData() returns (b: bool)
      ensures b == Abstract().HasRetransmittable()
    {
      if stop.Some? {
        return false;
      }
      for i := 0 to |lost|
        invariant forall k | 0 <= k < i :: Abstract().IsAcked(lost[k])
      {
        var isAcked := RangeAcked(lost[i]);
        if !isAcked {
          return true;
        }
      }
      return false;
    }
  }

  lemma UncoveredIsValid(s: Sender, r: SendRange)
    requires s.Valid()
    ensures s.(lost := Uncovered(s.lost, r)).Valid()
  {
    var kept := Uncovered(s.lost, r);
    forall i | 0 <= i < |kept|
      ensures s.ValidSent(kept[i])
    {
      UncoveredMembers(s.lost, r, kept[i]);
    }
  }
}
