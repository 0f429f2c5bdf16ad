/**
 * Sent-packet records (ack_loss.hpp, connection_packet_spaces.hpp and connection.hpp): the tracker of each
 * packet number space, and the one list of recovery packets the connection keeps beside them.
 */
module Recovery {
  import opened Common
  import opened Frames
  import AckRanges

  datatype PacketState = Outstanding | Acknowledged | Lost

  datatype SentPacket = SentPacket(number: nat, ackEliciting: bool, state: PacketState)

  datatype RecoveryPacket = RecoveryPacket(
    space: Space, number: nat, sentAt: int, ackEliciting: bool, state: PacketState)
  {
    function Sent(): SentPacket {
      SentPacket(number, ackEliciting, state)
    }
  }

  // ---------------------------------------------------------------- the tracker of one space

  function AckOne(p: SentPacket, acked: set<nat>): SentPacket {
    if p.state.Outstanding? && p.number in acked then p.(state := Acknowledged) else p
  }

  function AckAll(ps: seq<SentPacket>, acked: set<nat>): (r: seq<SentPacket>)
    ensures |r| == |ps| && forall i | 0 <= i < |ps| :: r[i] == AckOne(ps[i], acked)
  {
    seq(|ps|, i requires 0 <= i < |ps| => AckOne(ps[i], acked))
  }

  /** The packet threshold of section 6.1.1 of RFC 9002. */
  predicate TooOld(p: SentPacket, largest: nat, threshold: nat) {
    p.state.Outstanding? && p.ackEliciting && p.number <= largest && threshold <= largest - p.number
  }

  function LoseOne(p: SentPacket, largest: nat, threshold: nat): SentPacket {
    if TooOld(p, largest, threshold) then p.(state := Lost) else p
  }

  function LoseAll(ps: seq<SentPacket>, largest: nat, threshold: nat): (r: seq<SentPacket>)
    ensures |r| == |ps| && forall i | 0 <= i < |ps| :: r[i] == LoseOne(ps[i], largest, threshold)
  {
    seq(|ps|, i requires 0 <= i < |ps| => LoseOne(ps[i], largest, threshold))
  }

  /** The numbers whose state differs between two snapshots of a list, in order. */
  function Changed(before: seq<SentPacket>, after: seq<SentPacket>): seq<nat>
    requires |before| == |after|
  {
    if before == [] then [] else
      var n := |before| - 1;
      Changed(before[..n], after[..n]) + if before[n].state != after[n].state then [before[n].number] else []
  }

  lemma {:induction false} ChangedMembers(before: seq<SentPacket>, after: seq<SentPacket>, x: nat)
    requires |before| == |after|
    ensures x in Changed(before, after) <==>
            exists i :: 0 <= i < |before| && before[i].number == x && before[i].state != after[i].state
  {
    if before != [] {
      var n := |before| - 1;
      var b, a := before[..n], after[..n];
      ChangedMembers(b, a, x);
      assert Changed(before, after) ==
          Changed(b, a) + if before[n].state != after[n].state then [before[n].number] else [];
      hide Changed;
      assert forall i | 0 <= i < n :: b[i] == before[i] && a[i] == after[i];
      if i :| 0 <= i < n && before[i].number == x && before[i].state != after[i].state {
        assert b[i].number == x && b[i].state != a[i].state;
      }
    }
  }

  datatype AckOutcome = AckOutcome(packets: seq<SentPacket>, acked: seq<nat>, lost: seq<nat>)

  /** What an ACK frame does to a tracker. */
  ghost function OnAck(ps: seq<SentPacket>, ack: AckFrame, threshold: nat): AckOutcome {
    var numbers := AckRanges.Expand(ack);
    if numbers == {} then AckOutcome(ps, [], []) else
      var qs := AckAll(ps, numbers);
      var rs := LoseAll(qs, ack.largest, threshold);
      AckOutcome(rs, Changed(ps, qs), Changed(qs, rs))
  }

  method AckLoop(ps: seq<SentPacket>, numbers: set<nat>) returns (packets: seq<SentPacket>, acked: seq<nat>)
    ensures packets == AckAll(ps, numbers) && acked == Changed(ps, packets)
  {
    hide AckAll;
    packets, acked := ps, [];
    ghost var qs := AckAll(ps, numbers);
    for i := 0 to |ps|
      invariant |packets| == |ps| && acked == Changed(ps[..i], qs[..i])
      invariant forall k | 0 <= k < |ps| :: packets[k] == if k < i then qs[k] else ps[k]
    {
      assert ps[..i + 1][..i] == ps[..i] && qs[..i + 1][..i] == qs[..i];
      if packets[i].number in numbers && packets[i].state.Outstanding? {
        acked := acked + [packets[i].number];
        packets := packets[i := packets[i].(state := Acknowledged)];
      }
    }
    assert packets == qs && ps[..|ps|] == ps && qs[..|ps|] == qs;
  }

  method LossLoop(ps: seq<SentPacket>, largest: nat, threshold: nat) returns (packets: seq<SentPacket>, lost: seq<nat>)
    ensures packets == LoseAll(ps, largest, threshold) && lost == Changed(ps, packets)
  {
    hide LoseAll;
    packets, lost := ps, [];
    ghost var qs := LoseAll(ps, largest, threshold);
    for i := 0 to |ps|
      invariant |packets| == |ps| && lost == Changed(ps[..i], qs[..i])
      invariant forall k | 0 <= k < |ps| :: packets[k] == if k < i then qs[k] else ps[k]
    {
      assert ps[..i + 1][..i] == ps[..i] && qs[..i + 1][..i] == qs[..i];
      if packets[i].state.Outstanding? && packets[i].ackEliciting {
        if packets[i].number <= largest && threshold <= largest - packets[i].number {
          lost := lost + [packets[i].number];
          packets := packets[i := packets[i].(state := Lost)];
        }
      }
    }
    assert packets == qs && ps[..|ps|] == ps && qs[..|ps|] == qs;
  }

  method OnAckReceived(ps: seq<SentPacket>, ack: AckFrame, threshold: nat)
    returns (packets: seq<SentPacket>, acked: seq<nat>, lost: seq<nat>)
    ensures AckOutcome(packets, acked, lost) == OnAck(ps, ack, threshold)
  {
    var numbers := AckRanges.ExpandAckFrame(ack);
    if numbers == {} {
      return ps, [], [];
    }
    packets, acked := AckLoop(ps, numbers);
    packets, lost := LossLoop(packets, ack.largest, threshold);
  }

  predicate IsLive(p: SentPacket, number: nat) {
    p.number == number && p.state.Outstanding?
  }

  /** Marks the first outstanding packet with this number; numbers in order make it the only one. */
  method MarkLost(ps: seq<SentPacket>, number: nat) returns (r: seq<SentPacket>)
    ensures forall i | 0 <= i < |ps| && IsLive(ps[i], number) && (forall k | 0 <= k < i :: !IsLive(ps[k], number)) ::
        r == ps[i := ps[i].(state := Lost)]
    ensures (forall k | 0 <= k < |ps| :: !IsLive(ps[k], number)) ==> r == ps
    ensures Increasing(ps) ==> r == MarkIfOutstanding(ps, [number])
  {
    for i := 0 to |ps|
      invariant forall k | 0 <= k < i :: !IsLive(ps[k], number)
    {
      if ps[i].number == number && ps[i].state.Outstanding? {
        r := ps[i := ps[i].(state := Lost)];
        assert Increasing(ps) ==> r == MarkIfOutstanding(ps, [number]);
        return;
      }
    }
    assert ps == MarkIfOutstanding(ps, [number]);
    return ps;
  }

  function MarkIfOutstanding(ps: seq<SentPacket>, numbers: seq<nat>): (r: seq<SentPacket>)
    ensures |r| == |ps|
    ensures forall i | 0 <= i < |ps| ::
        r[i] == if ps[i].number in numbers && ps[i].state.Outstanding? then ps[i].(state := Lost) else ps[i]
  {
    seq(|ps|, i requires 0 <= i < |ps| =>
      if ps[i].number in numbers && ps[i].state.Outstanding? then ps[i].(state := Lost) else ps[i])
  }

  ghost predicate Increasing(ps: seq<SentPacket>) {
    forall i, j | 0 <= i < j < |ps| :: ps[i].number < ps[j].number
  }

  // ---------------------------------------------------------------- the list of all spaces

  /** The recovery packets of one space, as the tracker of that space should hold them. */
  ghost function Project(rec: seq<RecoveryPacket>, s: Space): seq<SentPacket> {
    if rec == [] then [] else
      var n := |rec| - 1;
      Project(rec[..n], s) + if rec[n].space == s then [rec[n].Sent()] else []
  }

  ghost predicate IncreasingRec(rec: seq<RecoveryPacket>) {
    forall i, j | 0 <= i < j < |rec| && rec[i].space == rec[j].space :: rec[i].number < rec[j].number
  }

  function MarkSent(ps: seq<SentPacket>, numbers: seq<nat>, st: PacketState): (r: seq<SentPacket>)
    ensures |r| == |ps|
    ensures forall i | 0 <= i < |ps| :: r[i] == if ps[i].number in numbers then ps[i].(state := st) else ps[i]
  {
    seq(|ps|, i requires 0 <= i < |ps| => if ps[i].number in numbers then ps[i].(state := st) else ps[i])
  }

  function MarkAll(rec: seq<RecoveryPacket>, s: Space, numbers: seq<nat>, st: PacketState): (r: seq<RecoveryPacket>)
    ensures |r| == |rec|
    ensures forall i | 0 <= i < |rec| ::
        r[i] == if rec[i].space == s && rec[i].number in numbers then rec[i].(state := st) else rec[i]
  {
    seq(|rec|, i requires 0 <= i < |rec| =>
      if rec[i].space == s && rec[i].number in numbers then rec[i].(state := st) else rec[i])
  }

  /** `mark_recovery_packets`. */
  method MarkRecoveryPackets(rec: seq<RecoveryPacket>, s: Space, numbers: seq<nat>, st: PacketState)
    returns (r: seq<RecoveryPacket>)
    ensures r == MarkAll(rec, s, numbers, st)
  {
    r := rec;
    for i := 0 to |rec|
      invariant |r| == |rec|
      invariant forall k | 0 <= k < |rec| :: r[k] == if k < i then MarkAll(rec, s, numbers, st)[k] else rec[k]
    {
      if r[i].space == s && r[i].number in numbers {
        r := r[i := r[i].(state := st)];
      }
    }
  }

  lemma MarkAllAppend(rec: seq<RecoveryPacket>, p: RecoveryPacket, s: Space, numbers: seq<nat>, st: PacketState)
    ensures MarkAll(rec + [p], s, numbers, st)
         == MarkAll(rec, s, numbers, st) + [if p.space == s && p.number in numbers then p.(state := st) else p]
  {
  }

  lemma {:induction false} ProjectMarked(
    rec: seq<RecoveryPacket>, s: Space, numbers: seq<nat>, st: PacketState, t: Space)
    ensures Project(MarkAll(rec, s, numbers, st), t)
         == if s == t then MarkSent(Project(rec, t), numbers, st) else Project(rec, t)
  {
    if rec == [] {
      assert MarkAll(rec, s, numbers, st) == [];
    } else {
      hide MarkAll, MarkSent, Project;
      var n := |rec| - 1;
      var rest, p := rec[..n], rec[n];
      assert rec == rest + [p];
      MarkAllAppend(rest, p, s, numbers, st);
      ProjectMarked(rest, s, numbers, st, t);
      var marked := if p.space == s && p.number in numbers then p.(state := st) else p;
      ProjectAppend(MarkAll(rest, s, numbers, st), marked, t);
      ProjectAppend(rest, p, t);
      MarkSentAppend(Project(rest, t), p.Sent(), numbers, st);
    }
  }

  lemma MarkSentAppend(ps: seq<SentPacket>, p: SentPacket, numbers: seq<nat>, st: PacketState)
    ensures MarkSent(ps + [p], numbers, st)
         == MarkSent(ps, numbers, st) + [if p.number in numbers then p.(state := st) else p]
    ensures MarkSent(ps + [], numbers, st) == MarkSent(ps, numbers, st) + []
  {
    assert ps + [] == ps;
  }

  /** An elementwise change of state that touches distinct numbers is a marking by number. */
  lemma ChangeIsMarking(ps: seq<SentPacket>, qs: seq<SentPacket>, st: PacketState)
    requires Increasing(ps) && |qs| == |ps|
    requires forall i | 0 <= i < |ps| :: qs[i] == ps[i] || (qs[i] == ps[i].(state := st) && ps[i].state != st)
    ensures MarkSent(ps, Changed(ps, qs), st) == qs
    ensures Increasing(qs)
  {
    var numbers := Changed(ps, qs);
    forall i | 0 <= i < |ps|
      ensures MarkSent(ps, numbers, st)[i] == qs[i]
    {
      ChangedMembers(ps, qs, ps[i].number);
    }
  }

  lemma {:induction false} ProjectAppend(rec: seq<RecoveryPacket>, p: RecoveryPacket, s: Space)
    ensures Project(rec + [p], s) == Project(rec, s) + if p.space == s then [p.Sent()] else []
  {
    assert (rec + [p])[..|rec|] == rec;
  }

  /** The list without one space. */
  function Keep(rec: seq<RecoveryPacket>, cleared: Space): seq<RecoveryPacket> {
    if rec == [] then [] else
      var n := |rec| - 1;
      Keep(rec[..n], cleared) + if rec[n].space == cleared then [] else [rec[n]]
  }

  lemma {:induction false} ProjectKept(rec: seq<RecoveryPacket>, cleared: Space, s: Space)
    ensures Project(Keep(rec, cleared), s) == if s == cleared then [] else Project(rec, s)
  {
    if rec != [] {
      var n := |rec| - 1;
      ProjectKept(rec[..n], cleared, s);
      var kept := Keep(rec[..n], cleared);
      if rec[n].space != cleared {
        ProjectAppend(kept, rec[n], s);
      } else {
        assert kept + [] == kept;
      }
      assert rec == rec[..n] + [rec[n]];
      ProjectAppend(rec[..n], rec[n], s);
      assert Project(rec[..n], s) + [] == Project(rec[..n], s);
    }
  }

  lemma {:induction false} KeptMembers(rec: seq<RecoveryPacket>, cleared: Space, p: RecoveryPacket)
    ensures p in Keep(rec, cleared) <==> p in rec && p.space != cleared
  {
    if rec != [] {
      var n := |rec| - 1;
      KeptMembers(rec[..n], cleared, p);
      assert rec == rec[..n] + [rec[n]];
    }
  }

  lemma {:induction false} KeptIsIncreasing(rec: seq<RecoveryPacket>, cleared: Space)
    requires IncreasingRec(rec)
    ensures IncreasingRec(Keep(rec, cleared))
  {
    if rec != [] {
      var n := |rec| - 1;
      KeptIsIncreasing(rec[..n], cleared);
      var kept := Keep(rec[..n], cleared);
      forall i | 0 <= i < |kept| && kept[i].space == rec[n].space
        ensures kept[i].number < rec[n].number
      {
        KeptMembers(rec[..n], cleared, kept[i]);
        var j :| 0 <= j < n && rec[..n][j] == kept[i];
        assert rec[j] == kept[i];
      }
    }
  }

  lemma {:induction false} ProjectMembers(rec: seq<RecoveryPacket>, s: Space, p: SentPacket)
    ensures p in Project(rec, s) <==> exists i :: 0 <= i < |rec| && rec[i].space == s && rec[i].Sent() == p
  {
    if rec != [] {
      var n := |rec| - 1;
      ProjectMembers(rec[..n], s, p);
      if exists i :: 0 <= i < n && rec[i].space == s && rec[i].Sent() == p {
        var i :| 0 <= i < n && rec[i].space == s && rec[i].Sent() == p;
        assert rec[..n][i].space == s && rec[..n][i].Sent() == p;
      }
      if exists i :: 0 <= i < n && rec[..n][i].space == s && rec[..n][i].Sent() == p {
        var i :| 0 <= i < n && rec[..n][i].space == s && rec[..n][i].Sent() == p;
        assert rec[i].space == s && rec[i].Sent() == p;
      }
    }
  }

  // ---------------------------------------------------------------- time-threshold loss

  /** A packet of the space that is due for loss at `now`. */
  predicate Due(p: RecoveryPacket, s: Space, largest: nat, delay: int, now: int) {
    p.space == s && p.state.Outstanding? && p.ackEliciting && p.number < largest && p.sentAt + delay <= now
  }

  function DueNumbers(rec: seq<RecoveryPacket>, s: Space, largest: nat, delay: int, now: int): seq<nat> {
    if rec == [] then [] else
      var n := |rec| - 1;
      DueNumbers(rec[..n], s, largest, delay, now) + if Due(rec[n], s, largest, delay, now) then [rec[n].number] else []
  }

  lemma {:induction false} DueMembers(rec: seq<RecoveryPacket>, s: Space, largest: nat, delay: int, now: int, x: nat)
    ensures x in DueNumbers(rec, s, largest, delay, now) <==>
            exists i :: 0 <= i < |rec| && Due(rec[i], s, largest, delay, now) && rec[i].number == x
  {
    if rec != [] {
      var n := |rec| - 1;
      DueMembers(rec[..n], s, largest, delay, now, x);
      if exists i :: 0 <= i < n && Due(rec[i], s, largest, delay, now) && rec[i].number == x {
        var i :| 0 <= i < n && Due(rec[i], s, largest, delay, now) && rec[i].number == x;
        assert Due(rec[..n][i], s, largest, delay, now) && rec[..n][i].number == x;
      }
      if exists i :: 0 <= i < n && Due(rec[..n][i], s, largest, delay, now) && rec[..n][i].number == x {
        var i :| 0 <= i < n && Due(rec[..n][i], s, largest, delay, now) && rec[..n][i].number == x;
        assert Due(rec[i], s, largest, delay, now) && rec[i].number == x;
      }
    }
  }

  /** In a list with distinct numbers per space, a due number names one packet. */
  lemma DueIsUnique(rec: seq<RecoveryPacket>, s: Space, largest: nat, delay: int, now: int, k: nat)
    requires IncreasingRec(rec) && k < |rec| && rec[k].space == s
    ensures rec[k].number in DueNumbers(rec, s, largest, delay, now) <==> Due(rec[k], s, largest, delay, now)
  {
    DueMembers(rec, s, largest, delay, now, rec[k].number);
  }

  /** When the next packet below `largest` that is not yet due becomes due. */
  function NextLoss(rec: seq<RecoveryPacket>, s: Space, largest: nat, delay: int, now: int): Option<int> {
    if rec == [] then None else
      var n := |rec| - 1;
      var before := NextLoss(rec[..n], s, largest, delay, now);
      if Awaited(rec[n], s) && rec[n].number < largest && now < rec[n].sentAt + delay
      then Earlier(before, rec[n].sentAt + delay) else before
  }

  lemma {:induction false} NextLossMeaning(rec: seq<RecoveryPacket>, s: Space, largest: nat, delay: int, now: int)
    ensures var e := NextLoss(rec, s, largest, delay, now);
            && (e.Some? ==> now < e.value && exists i :: 0 <= i < |rec| && Awaited(rec[i], s) && rec[i].number < largest
                                                        && rec[i].sentAt + delay == e.value)
            && (forall i | 0 <= i < |rec| && Awaited(rec[i], s) && rec[i].number < largest ::
                  Due(rec[i], s, largest, delay, now) || (e.Some? && e.value <= rec[i].sentAt + delay))
  {
    if rec != [] {
      var n := |rec| - 1;
      NextLossMeaning(rec[..n], s, largest, delay, now);
      assert forall i | 0 <= i < n :: rec[..n][i] == rec[i];
    }
  }

  /** `detect_time_threshold_losses` for an estimator that has a sample. */
  method DetectLosses(rec: seq<RecoveryPacket>, s: Space, largest: nat, delay: int, now: int)
    returns (r: seq<RecoveryPacket>, lost: seq<nat>, earliest: Option<int>)
    ensures lost == DueNumbers(rec, s, largest, delay, now) && |r| == |rec|
    ensures forall k | 0 <= k < |rec| ::
        r[k] == if Due(rec[k], s, largest, delay, now) then rec[k].(state := Lost) else rec[k]
    ensures earliest == NextLoss(rec, s, largest, delay, now)
    ensures IncreasingRec(rec) ==> r == MarkAll(rec, s, lost, Lost)
  {
    hide MarkAll;
    r, lost, earliest := rec, [], None;
    for i := 0 to |rec|
      invariant |r| == |rec| && lost == DueNumbers(rec[..i], s, largest, delay, now)
      invariant earliest == NextLoss(rec[..i], s, largest, delay, now)
      invariant forall k | 0 <= k < |rec| ::
          r[k] == if k < i && Due(rec[k], s, largest, delay, now) then rec[k].(state := Lost) else rec[k]
    {
      assert rec[..i + 1][..i] == rec[..i];
      if r[i].space == s && r[i].state.Outstanding? && r[i].ackEliciting && r[i].number < largest {
        if r[i].sentAt + delay <= now {
          lost := lost + [r[i].number];
          r := r[i := r[i].(state := Lost)];
        } else if earliest.None? || r[i].sentAt + delay < earliest.value {
          earliest := Some(r[i].sentAt + delay);
        }
      }
    }
    assert rec[..|rec|] == rec;
    if IncreasingRec(rec) {
      DueIsMarking(rec, s, largest, delay, now, r);
    }
  }

  lemma DueIsMarking(
    rec: seq<RecoveryPacket>, s: Space, largest: nat, delay: int, now: int, r: seq<RecoveryPacket>)
    requires IncreasingRec(rec) && |r| == |rec|
    requires forall k | 0 <= k < |rec| ::
        r[k] == if Due(rec[k], s, largest, delay, now) then rec[k].(state := Lost) else rec[k]
    ensures r == MarkAll(rec, s, DueNumbers(rec, s, largest, delay, now), Lost)
  {
    hide MarkAll, DueNumbers, IncreasingRec;
    var lost := DueNumbers(rec, s, largest, delay, now);
    forall k | 0 <= k < |rec|
      ensures r[k] == MarkAll(rec, s, lost, Lost)[k]
    {
      if rec[k].space == s {
        DueIsUnique(rec, s, largest, delay, now, k);
      }
    }
  }

  // ---------------------------------------------------------------- timers

  /** Packets a timer waits for. */
  predicate Awaited(p: RecoveryPacket, s: Space) {
    p.space == s && p.state.Outstanding? && p.ackEliciting
  }

  function Later(a: Option<int>, x: int): Option<int> {
    if a.None? || a.value < x then Some(x) else a
  }

  function Earlier(a: Option<int>, x: int): Option<int> {
    if a.None? || x < a.value then Some(x) else a
  }

  /** When the last awaited packet was sent. */
  function LastSent(rec: seq<RecoveryPacket>, s: Space): Option<int> {
    if rec == [] then None else
      var n := |rec| - 1;
      var before := LastSent(rec[..n], s);
      if Awaited(rec[n], s) then Later(before, rec[n].sentAt) else before
  }

  /** When the first awaited packet below `largest` is due for loss. */
  function EarliestLoss(rec: seq<RecoveryPacket>, s: Space, largest: nat, delay: int): Option<int> {
    if rec == [] then None else
      var n := |rec| - 1;
      var before := EarliestLoss(rec[..n], s, largest, delay);
      if Awaited(rec[n], s) && rec[n].number < largest then Earlier(before, rec[n].sentAt + delay) else before
  }

  lemma {:induction false} LastSentMeaning(rec: seq<RecoveryPacket>, s: Space)
    ensures LastSent(rec, s).Some? <==> exists i :: 0 <= i < |rec| && Awaited(rec[i], s)
    ensures forall i | 0 <= i < |rec| && Awaited(rec[i], s) :: rec[i].sentAt <= LastSent(rec, s).value
    ensures LastSent(rec, s).Some? ==>
              exists i :: 0 <= i < |rec| && Awaited(rec[i], s) && rec[i].sentAt == LastSent(rec, s).value
  {
    if rec != [] {
      var n := |rec| - 1;
      LastSentMeaning(rec[..n], s);
      assert forall i | 0 <= i < n :: rec[..n][i] == rec[i];
    }
  }

  lemma {:induction false} EarliestLossMeaning(rec: seq<RecoveryPacket>, s: Space, largest: nat, delay: int)
    ensures var e := EarliestLoss(rec, s, largest, delay);
            && (e.Some? ==>
                  exists i :: 0 <= i < |rec| && Awaited(rec[i], s)
                              && rec[i].number < largest && rec[i].sentAt + delay == e.value)
            && (forall i | 0 <= i < |rec| && Awaited(rec[i], s) && rec[i].number < largest ::
                  e.Some? && e.value <= rec[i].sentAt + delay)
  {
    if rec != [] {
      var n := |rec| - 1;
      EarliestLossMeaning(rec[..n], s, largest, delay);
      assert forall i | 0 <= i < n :: rec[..n][i] == rec[i];
    }
  }

  datatype TimerMode = LossTime | Pto

  datatype Timer = Timer(mode: TimerMode, deadline: int)

  /** `recovery_timer_for`: loss detection first, then the probe timeout where it is allowed. */
  function TimerFor(
    rec: seq<RecoveryPacket>, s: Space, largest: Option<nat>, lossDelay: Option<int>, probe: Option<int>): Option<Timer>
  {
    var loss := if largest.Some? && lossDelay.Some? then EarliestLoss(rec, s, largest.value, lossDelay.value) else None;
    var last := LastSent(rec, s);
    if loss.Some? then Some(Timer(LossTime, loss.value))
    else if last.Some? && probe.Some? then Some(Timer(Pto, last.value + probe.value))
    else None
  }

  /**
   * The timer in plain terms. It is a loss timer exactly if a round trip is known and a packet is waited for below the
   * largest acknowledged, and then the earliest such packet sets it; otherwise it is a probe timer exactly if some
   * packet is waited for and the space may probe, and then the latest packet sets it.
   */
  ghost predicate IsTimer(
    rec: seq<RecoveryPacket>, s: Space, largest: Option<nat>, lossDelay: Option<int>, probe: Option<int>,
    t: Option<Timer>)
  {
    && (t.Some? && t.value.mode.LossTime? <==> lossDelay.Some? && IsLate(rec, s, largest))
    && (t.Some? && t.value.mode.Pto? <==> !(lossDelay.Some? && IsLate(rec, s, largest)) && probe.Some?
                                          && exists i :: 0 <= i < |rec| && IsWaiting(rec[i], s))
    && (t.Some? && t.value.mode.LossTime? ==>
          && (exists i :: 0 <= i < |rec| && IsWaiting(rec[i], s) && rec[i].number < largest.value
                          && rec[i].sentAt + lossDelay.value == t.value.deadline)
          && (forall i | 0 <= i < |rec| && IsWaiting(rec[i], s) && rec[i].number < largest.value ::
                t.value.deadline <= rec[i].sentAt + lossDelay.value))
    && (t.Some? && t.value.mode.Pto? ==>
          && (exists i :: 0 <= i < |rec| && IsWaiting(rec[i], s) && rec[i].sentAt + probe.value == t.value.deadline)
          && (forall i | 0 <= i < |rec| && IsWaiting(rec[i], s) ::
                rec[i].sentAt + probe.value <= t.value.deadline))
  }

  lemma TimerMeaning(
    rec: seq<RecoveryPacket>, s: Space, largest: Option<nat>, lossDelay: Option<int>, probe: Option<int>)
    ensures IsTimer(rec, s, largest, lossDelay, probe, TimerFor(rec, s, largest, lossDelay, probe))
  {
    hide LastSent, EarliestLoss;
    assert forall p: RecoveryPacket :: Awaited(p, s) == IsWaiting(p, s);
    LastSentMeaning(rec, s);
    if largest.Some? && lossDelay.Some? {
      EarliestLossMeaning(rec, s, largest.value, lossDelay.value);
    }
  }

  /** A packet is waited for although a later one has been acknowledged. */
  ghost predicate IsLate(rec: seq<RecoveryPacket>, s: Space, largest: Option<nat>) {
    largest.Some? && exists i :: 0 <= i < |rec| && IsWaiting(rec[i], s) && rec[i].number < largest.value
  }

  /** Sent, neither acknowledged nor lost, and the peer is to acknowledge it. */
  predicate IsWaiting(p: RecoveryPacket, s: Space) {
    p.space == s && p.state == Outstanding && p.ackEliciting
  }

  method RecoveryTimer(
    rec: seq<RecoveryPacket>, s: Space, largest: Option<nat>, lossDelay: Option<int>, probe: Option<int>)
    returns (t: Option<Timer>)
    ensures t == TimerFor(rec, s, largest, lossDelay, probe)
  {
    var last: Option<int>, loss: Option<int> := None, None;
    for i := 0 to |rec|
      invariant last == LastSent(rec[..i], s)
      invariant loss ==
                if largest.Some? && lossDelay.Some?
                then EarliestLoss(rec[..i], s, largest.value, lossDelay.value) else None
    {
      assert rec[..i + 1][..i] == rec[..i];
      if rec[i].space == s && rec[i].state.Outstanding? && rec[i].ackEliciting {
        last := Later(last, rec[i].sentAt);
        if largest.Some? && rec[i].number < largest.value && lossDelay.Some? {
          loss := Earlier(loss, rec[i].sentAt + lossDelay.value);
        }
      }
    }
    assert rec[..|rec|] == rec;
    if loss.Some? {
      return Some(Timer(LossTime, loss.value));
    }
    if last.Some? && probe.Some? {
      return Some(Timer(Pto, last.value + probe.value));
    }
    return None;
  }

  /** How many packets of a space are awaited. */
  ghost function AwaitedCount(rec: seq<RecoveryPacket>, s: Space): nat {
    if rec == [] then 0 else
      var n := |rec| - 1;
      AwaitedCount(rec[..n], s) + if Awaited(rec[n], s) then 1 else 0
  }

  /** Marking packets lost never adds to the awaited ones, and takes away each awaited one it names. */
  lemma {:induction false} MarkingLowersCount(rec: seq<RecoveryPacket>, s: Space, numbers: seq<nat>)
    ensures AwaitedCount(MarkAll(rec, s, numbers, Lost), s) <= AwaitedCount(rec, s)
    ensures (exists i :: 0 <= i < |rec| && Awaited(rec[i], s) && rec[i].number in numbers)
            ==> AwaitedCount(MarkAll(rec, s, numbers, Lost), s) < AwaitedCount(rec, s)
  {
    if rec != [] {
      var n := |rec| - 1;
      MarkingLowersCount(rec[..n], s, numbers);
      var marked := MarkAll(rec, s, numbers, Lost);
      hide MarkAll;
      assert marked[..n] == MarkAll(rec[..n], s, numbers, Lost);
      if exists i :: 0 <= i < n && Awaited(rec[i], s) && rec[i].number in numbers {
        var i :| 0 <= i < n && Awaited(rec[i], s) && rec[i].number in numbers;
        assert Awaited(rec[..n][i], s) && rec[..n][i].number in numbers;
      }
    }
  }

  /** Marking packets of one space leaves what the other spaces wait for. */
  lemma {:induction false} MarkingLeavesOthers(
    rec: seq<RecoveryPacket>, s: Space, numbers: seq<nat>, st: PacketState, t: Space)
    requires t != s
    ensures AwaitedCount(MarkAll(rec, s, numbers, st), t) == AwaitedCount(rec, t)
  {
    if rec == [] {
      assert MarkAll(rec, s, numbers, st) == [];
    } else {
      hide MarkAll;
      var n := |rec| - 1;
      var rest, p := rec[..n], rec[n];
      MarkingLeavesOthers(rest, s, numbers, st, t);
      assert rec == rest + [p];
      MarkAllAppend(rest, p, s, numbers, st);
      var q := if p.space == s && p.number in numbers then p.(state := st) else p;
      assert (MarkAll(rest, s, numbers, st) + [q])[..n] == MarkAll(rest, s, numbers, st);
    }
  }
}
