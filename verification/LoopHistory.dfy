/**
 * The history of a connection: everything that happened to it, moment by moment, and what the different parts of the
 * loop can read off it. One list carries actions, reports, path events and stream events, so their order is kept.
 */
module LoopHistory {
  import opened Common
  import opened LoopState
  import opened SentRecords
  import FC = FlowControl
  import PV = PathValidation

  /**
   * `Did` is an action the loop emitted and `Handed` are the actions a driver took. `Saw` is a packet number received
   * for the first time, `Told` a packet reported to the sending streams. A datagram that was emitted also counts as a
   * departure on the path.
   */
  datatype Moment =
    | Did(action: Action)
    | Handed(actions: seq<Action>)
    | Saw(space: Space, number: nat)
    | Told(space: Space, number: nat, acked: bool)
    | OnPath(path: PV.Event)
    | OnStreams(flow: FC.Event)

  // ---------------------------------------------------------------- projections

  /** All actions ever emitted. */
  ghost function Emitted(h: seq<Moment>): seq<Action> {
    if h == [] then [] else
      var m := h[|h| - 1];
      Emitted(h[..|h| - 1]) + if m.Did? then [m.action] else []
  }

  /** All actions drivers have taken. */
  ghost function HandedOut(h: seq<Moment>): seq<Action> {
    if h == [] then [] else
      var m := h[|h| - 1];
      HandedOut(h[..|h| - 1]) + if m.Handed? then m.actions else []
  }

  /** All packets reported acknowledged or lost. */
  ghost function Reports(h: seq<Moment>): seq<Report> {
    if h == [] then [] else
      var m := h[|h| - 1];
      Reports(h[..|h| - 1]) + if m.Told? then [Report(m.space, m.number)] else []
  }

  /** What the path saw. */
  ghost function PathEvents(h: seq<Moment>): seq<PV.Event> {
    if h == [] then [] else
      var m := h[|h| - 1];
      PathEvents(h[..|h| - 1]) +
      if m.OnPath? then [m.path] else if m.Did? && m.action.Datagram? then [PV.Departure(m.action.size)] else []
  }

  ghost function RangeEvents(ranges: seq<StreamRange>, acked: bool): (es: seq<FC.Event>)
    ensures |es| == |ranges|
    ensures forall i | 0 <= i < |ranges| ::
        es[i] ==
          if acked then FC.Confirmed(ranges[i].streamId, ranges[i].range)
          else FC.Missed(ranges[i].streamId, ranges[i].range)
  {
    seq(|ranges|, i requires 0 <= i < |ranges| =>
      if acked then FC.Confirmed(ranges[i].streamId, ranges[i].range)
      else FC.Missed(ranges[i].streamId, ranges[i].range))
  }

  /** The stream ranges of the packet that was sent under a number. */
  ghost function SentRanges(h: seq<Moment>, s: Space, number: nat): seq<StreamRange> {
    StreamRanges(FramesIn(Emitted(h), s, number))
  }

  /** What the sending streams saw; a report stands for the stream ranges of the packet as it was sent. */
  ghost function StreamEvents(h: seq<Moment>): seq<FC.Event> {
    if h == [] then [] else
      var before, m := h[..|h| - 1], h[|h| - 1];
      StreamEvents(before) +
      match m
      case OnStreams(e) => [e]
      case Told(s, number, acked) => RangeEvents(SentRanges(before, s, number), acked)
      case _ => []
  }

  /** A new peer address. */
  predicate Moves(m: Moment) {
    m.OnPath? && (m.path.NewPeer? || m.path.Unchallenged?)
  }

  /** The bytes received since the present peer address was adopted. */
  ghost function ReceivedSince(h: seq<Moment>): nat {
    if h == [] || Moves(h[|h| - 1]) then 0 else
      var m := h[|h| - 1];
      ReceivedSince(h[..|h| - 1]) + if m.OnPath? && m.path.Arrival? then m.path.size else 0
  }

  /** The bytes of the datagrams emitted since then. */
  ghost function SentSince(h: seq<Moment>): nat {
    if h == [] || Moves(h[|h| - 1]) then 0 else
      var m := h[|h| - 1];
      SentSince(h[..|h| - 1]) + if m.Did? && m.action.Datagram? then m.action.size else 0
  }

  /** All bytes ever received. */
  ghost function Arrived(h: seq<Moment>): nat {
    if h == [] then 0 else
      var m := h[|h| - 1];
      Arrived(h[..|h| - 1]) + if m.OnPath? && m.path.Arrival? then m.path.size else 0
  }

  // ---------------------------------------------------------------- one more moment

  lemma Next(h: seq<Moment>, m: Moment)
    ensures (h + [m])[..|h|] == h && (h + [m])[|h|] == m && h + [m] != []
  {
  }

  lemma EmittedNext(h: seq<Moment>, m: Moment)
    ensures Emitted(h + [m]) == Emitted(h) + if m.Did? then [m.action] else []
    ensures HandedOut(h + [m]) == HandedOut(h) + if m.Handed? then m.actions else []
  {
    Next(h, m);
  }

  lemma ReportsNext(h: seq<Moment>, m: Moment)
    ensures Reports(h + [m]) == Reports(h) + if m.Told? then [Report(m.space, m.number)] else []
  {
    Next(h, m);
  }

  lemma PathNext(h: seq<Moment>, m: Moment)
    ensures PathEvents(h + [m]) == PathEvents(h) +
      if m.OnPath? then [m.path] else if m.Did? && m.action.Datagram? then [PV.Departure(m.action.size)] else []
    ensures ReceivedSince(h + [m]) ==
      if Moves(m) then 0 else ReceivedSince(h) + if m.OnPath? && m.path.Arrival? then m.path.size else 0
    ensures SentSince(h + [m]) ==
      if Moves(m) then 0 else SentSince(h) + if m.Did? && m.action.Datagram? then m.action.size else 0
    ensures Arrived(h + [m]) == Arrived(h) + if m.OnPath? && m.path.Arrival? then m.path.size else 0
  {
    Next(h, m);
  }

  lemma StreamNext(h: seq<Moment>, m: Moment)
    ensures m.OnStreams? ==> StreamEvents(h + [m]) == StreamEvents(h) + [m.flow]
    ensures m.Told? ==>
              StreamEvents(h + [m]) == StreamEvents(h) + RangeEvents(SentRanges(h, m.space, m.number), m.acked)
    ensures !m.OnStreams? && !m.Told? ==> StreamEvents(h + [m]) == StreamEvents(h)
  {
    hide RangeEvents, SentRanges;
    Next(h, m);
    assert StreamEvents(h) + [] == StreamEvents(h);
  }

  // ---------------------------------------------------------------- reports

  /** Reports on packets of one space, in order. */
  ghost function Tolds(s: Space, numbers: seq<nat>, acked: bool): (ms: seq<Moment>)
    ensures |ms| == |numbers| && forall i | 0 <= i < |numbers| :: ms[i] == Told(s, numbers[i], acked)
  {
    seq(|numbers|, i requires 0 <= i < |numbers| => Told(s, numbers[i], acked))
  }

  lemma ToldsSplit(s: Space, numbers: seq<nat>, acked: bool)
    requires numbers != []
    ensures var n := |numbers| - 1;
            Tolds(s, numbers, acked) == Tolds(s, numbers[..n], acked) + [Told(s, numbers[n], acked)]
  {
  }

  /** Reports change neither the actions nor the path, and add themselves to the reports. */
  lemma {:induction false} AfterTolds(h: seq<Moment>, s: Space, numbers: seq<nat>, acked: bool)
    ensures var k := h + Tolds(s, numbers, acked);
            && Emitted(k) == Emitted(h) && HandedOut(k) == HandedOut(h) && PathEvents(k) == PathEvents(h)
            && ReceivedSince(k) == ReceivedSince(h) && SentSince(k) == SentSince(h) && Arrived(k) == Arrived(h)
            && Reports(k) == Reports(h) + Tag(s, numbers)
    decreases |numbers|
  {
    hide Emitted, HandedOut, PathEvents, ReceivedSince, SentSince, Reports, Tolds, Tag, Arrived;
    if numbers == [] {
      assert Tolds(s, numbers, acked) == [] && Tag(s, numbers) == [];
      assert h + [] == h && Reports(h) + [] == Reports(h);
    } else {
      var n := |numbers| - 1;
      var k, m := h + Tolds(s, numbers[..n], acked), Told(s, numbers[n], acked);
      AfterTolds(h, s, numbers[..n], acked);
      ToldsSplit(s, numbers, acked);
      assert h + Tolds(s, numbers, acked) == k + [m];
      EmittedNext(k, m);
      ReportsNext(k, m);
      PathNext(k, m);
      assert Tag(s, numbers) == Tag(s, numbers[..n]) + [Report(s, numbers[n])];
      assert Reports(h) + Tag(s, numbers[..n]) + [Report(s, numbers[n])] == Reports(h) + Tag(s, numbers);
      assert Emitted(k) + [] == Emitted(k) && HandedOut(k) + [] == HandedOut(k) && PathEvents(k) + [] == PathEvents(k);
    }
  }

  lemma SameSentRanges(h: seq<Moment>, k: seq<Moment>, s: Space, number: nat)
    requires Emitted(k) == Emitted(h)
    ensures SentRanges(k, s, number) == SentRanges(h, s, number)
  {
  }

  lemma RangeEventsJoin(es: seq<FC.Event>, a: seq<StreamRange>, b: seq<StreamRange>, acked: bool)
    ensures es + RangeEvents(a, acked) + RangeEvents(b, acked) == es + RangeEvents(a + b, acked)
  {
    hide RangeEvents;
    assert RangeEvents(a + b, acked) == RangeEvents(a, acked) + RangeEvents(b, acked);
  }

  /** Where the books hold the ranges of the packets as they were sent, the streams see those. */
  lemma {:induction false} StreamsAfterTolds(
    h: seq<Moment>, ranges: seq<PacketRanges>, s: Space, numbers: seq<nat>, acked: bool)
    requires forall i | 0 <= i < |numbers| :: FindRanges(ranges, s, numbers[i]) == SentRanges(h, s, numbers[i])
    ensures StreamEvents(h + Tolds(s, numbers, acked))
            == StreamEvents(h) + RangeEvents(RangesOf(ranges, s, numbers), acked)
    decreases |numbers|
  {
    hide Emitted, Tolds, StreamEvents, RangeEvents, FindRanges, SentRanges;
    if numbers == [] {
      assert Tolds(s, numbers, acked) == [] && RangeEvents([], acked) == [];
      assert h + [] == h && StreamEvents(h) + [] == StreamEvents(h);
    } else {
      var n := |numbers| - 1;
      var front, last := numbers[..n], numbers[n];
      var k, m := h + Tolds(s, front, acked), Told(s, last, acked);
      StreamsAfterTolds(h, ranges, s, front, acked);
      AfterTolds(h, s, front, acked);
      SameSentRanges(h, k, s, last);
      ToldsSplit(s, numbers, acked);
      assert h + Tolds(s, numbers, acked) == k + [m];
      StreamNext(k, m);
      RangeEventsJoin(StreamEvents(h), RangesOf(ranges, s, front), FindRanges(ranges, s, last), acked);
    }
  }
}
