/** End to end: one sender, one receiver, and a network that drops, repeats and reorders frames. */
module StreamDelivery {
  import opened Common
  import opened Frames
  import opened StreamReceive
  import opened StreamSend
  import Reassembly
  import SendLedger

  /** `sent` is every frame ever emitted: the network may hand over any of them, any number of times, or none. */
  datatype World = World(s: Sender, sent: set<StreamFrame>, r: View)

  datatype Event =
    | Write(data: seq<byte>)
    | Close
    | Transmit(max: nat)
    | SenderAcked(range: SendRange)   // any range at all, genuine or not
    | SenderLost(range: SendRange)
    | RaiseLimit(limit: u64)          // the receiver extends its own credit
    | CreditArrives(limit: u64)       // a MAX_STREAM_DATA the receiver has stood for reaches the sender
    | StopArrives(code: nat)
    | Arrive(frame: StreamFrame)

  ghost function Step(w: World, e: Event): (r: World)
    requires w.s.Valid()
    ensures r.s.Valid()
  {
    match e
    case Write(data) => w.(s := Append(w.s, data))
    case Close => w.(s := Finish(w.s))
    case Transmit(max) =>
      SendLedger.PopIsValid(w.s, max);
      var (s, e) := Pop(w.s, max);
      w.(s := s, sent := if e.Some? then w.sent + {e.value.frame} else w.sent)
    case SenderAcked(range) =>
      UncoveredIsValid(w.s, Acknowledged(w.s, range));
      w.(s := OnAcked(w.s, range))
    case SenderLost(range) => w.(s := OnLost(w.s, range))
    case RaiseLimit(limit) => w.(r := w.r.(maxData := Max(w.r.maxData, limit)))
    case CreditArrives(limit) => if limit <= w.r.maxData then w.(s := Credit(w.s, limit)) else w
    case StopArrives(code) => w.(s := Stop(w.s, code))
    case Arrive(frame) => if frame in w.sent then w.(r := Reassembly.Step(w.r, frame)) else w
  }

  ghost function Run(w: World, es: seq<Event>): (r: World)
    requires w.s.Valid()
    ensures r.s.Valid()
    decreases es
  {
    if es == [] then w else Run(Step(w, es[0]), es[1..])
  }

  ghost function Start(streamId: nat, sendCredit: u64, receiveCredit: u64): World {
    World(NewSender(streamId, sendCredit), {}, View(map[], None, receiveCredit, None))
  }

  // ---------------------------------------------------------------- the invariant

  /** A frame the sender has really sent. */
  ghost predicate Genuine(s: Sender, f: StreamFrame) {
    && f.End() <= s.nextUnsent <= |s.bytes|
    && f.data == s.bytes[f.Start()..f.End()]
    && (f.fin ==> s.finished && f.End() == |s.bytes|)
  }

  ghost predicate Safe(w: World) {
    && w.s.Valid()
    && w.s.maxData <= w.r.maxData <= U64_MAX
    && w.r.reset.None?
    && (forall f | f in w.sent :: Genuine(w.s, f))
    && (forall x | x in w.r.content :: x < w.s.nextUnsent && w.r.content[x] == w.s.bytes[x])
    && (w.r.finalSize.Some? ==> w.s.finished && w.r.finalSize.value == |w.s.bytes|)
  }

  lemma PopEmitsGenuine(s: Sender, max: nat)
    requires s.Valid()
    ensures var (t, e) := Pop(s, max);
            && t.bytes == s.bytes && t.finished == s.finished && t.maxData == s.maxData
            && s.nextUnsent <= t.nextUnsent
            && (e.Some? ==> Genuine(t, e.value.frame))
  {
    PopFrameCarriesRange(s, max);
    SendLedger.PopIsValid(s, max);
  }

  /** Whatever is in flight is acceptable to the receiver, and taking it changes nothing it already knew. */
  lemma GenuineFrameIsAccepted(w: World, f: StreamFrame)
    requires Safe(w) && Genuine(w.s, f)
    ensures Accepts(w.r, f) && Safe(w.(r := Accept(w.r, f)))
  {
    var m := FrameBytes(f);
    forall x: nat | x in m
      ensures x < w.s.nextUnsent && m[x] == w.s.bytes[x]
    {
      assert m[x] == f.data[x - f.Start()];
    }
  }

  lemma StepIsSafe(w: World, e: Event)
    requires Safe(w)
    ensures Safe(Step(w, e))
  {
    match e
    case Arrive(f) =>
      if f in w.sent {
        GenuineFrameIsAccepted(w, f);
      }
    case Transmit(max) =>
      PopEmitsGenuine(w.s, max);
    case Write(data) =>
    case Close =>
    case SenderAcked(range) =>
    case SenderLost(range) =>
    case RaiseLimit(limit) =>
    case CreditArrives(limit) =>
    case StopArrives(code) =>
  }

  lemma {:induction false} RunIsSafe(w: World, es: seq<Event>)
    requires Safe(w)
    ensures Safe(Run(w, es))
    decreases es
  {
    if es != [] {
      StepIsSafe(w, es[0]);
      RunIsSafe(Step(w, es[0]), es[1..]);
    }
  }

  /**
   * End-to-end safety over every run: the delivered bytes are a prefix of the written ones, no emitted frame
   * is ever rejected, and a receiver that has closed has delivered everything that was written.
   */
  lemma DeliveryIsSafe(
    streamId: nat, sendCredit: u64, receiveCredit: u64, es: seq<Event>, delivered: seq<byte>, pending: seq<Segment>)
    requires sendCredit <= receiveCredit
    requires var w := Run(Start(streamId, sendCredit, receiveCredit), es);
             Reassembly.Stores(delivered, pending, w.r.content)
    ensures var w := Run(Start(streamId, sendCredit, receiveCredit), es);
            && delivered <= w.s.bytes
            && (forall f | f in w.sent :: Accepts(w.r, f))
            && (w.r.finalSize == Some(|delivered|) ==> w.s.finished && delivered == w.s.bytes)
  {
    var start := Start(streamId, sendCredit, receiveCredit);
    assert Safe(start);
    RunIsSafe(start, es);
    var w := Run(start, es);
    Reassembly.DeliveredIsLongestRun(delivered, pending, w.r.content);
    assert |delivered| <= |w.s.bytes| by {
      if delivered != [] {
        assert |delivered| - 1 in w.r.content;
      }
    }
    assert delivered == w.s.bytes[..|delivered|];
    forall f | f in w.sent
      ensures Accepts(w.r, f)
    {
      GenuineFrameIsAccepted(w, f);
    }
  }

  // ---------------------------------------------------------------- reliable delivery

  /** The same world with the sender's ranges in flight; here a range is acknowledged only after it arrived. */
  datatype Session = Session(l: SendLedger.Ledger, sent: set<StreamFrame>, r: View)

  datatype Move =
    | SenderMove(e: SendLedger.Event)
    | Deliver(frame: StreamFrame)
    | Extend(limit: u64)

  ghost predicate Arrived(r: View, range: SendRange) {
    && (forall x: nat | range.offset <= x < range.End() :: x in r.content)
    && (range.fin ==> r.finalSize.Some?)
  }

  ghost predicate Enabled(s: Session, m: Move) {
    match m
    case SenderMove(e) =>
      && (e.Ack? ==> e.index < |s.l.inFlight| && Arrived(s.r, s.l.inFlight[e.index]))
      && (e.Lose? ==> e.index < |s.l.inFlight|)
      && (e.Grant? ==> e.limit <= s.r.maxData)
    case Deliver(frame) => frame in s.sent
    case Extend(limit) => true
  }

  /** The event of the wider world that a move is an instance of. */
  ghost function AsEvent(s: Session, m: Move): Event
    requires Enabled(s, m)
  {
    match m
    case Deliver(frame) => Arrive(frame)
    case Extend(limit) => RaiseLimit(limit)
    case SenderMove(e) =>
      match e
      case Write(data) => Write(data)
      case End => Close
      case Send(max) => Transmit(max)
      case Ack(i) => SenderAcked(s.l.inFlight[i])
      case Lose(i) => SenderLost(s.l.inFlight[i])
      case Grant(limit) => CreditArrives(limit)
      case Halt(code) => StopArrives(code)
  }

  ghost function WorldOf(s: Session): World {
    World(s.l.s, s.sent, s.r)
  }

  /** A move is the event it stands for, plus the bookkeeping of ranges in flight. */
  ghost function Make(s: Session, m: Move): (t: Session)
    requires s.l.s.Valid() && Enabled(s, m)
    ensures t.l.s.Valid()
  {
    var w := Step(WorldOf(s), AsEvent(s, m));
    Session(if m.SenderMove? then SendLedger.Step(s.l, m.e) else s.l, w.sent, w.r)
  }

  lemma MoveIsAnEvent(s: Session, m: Move)
    requires s.l.s.Valid() && Enabled(s, m)
    ensures WorldOf(Make(s, m)) == Step(WorldOf(s), AsEvent(s, m))
  {
  }

  ghost predicate Legal(s: Session, ms: seq<Move>)
    requires s.l.s.Valid()
    decreases ms
  {
    ms == [] || (Enabled(s, ms[0]) && Legal(Make(s, ms[0]), ms[1..]))
  }

  ghost function Play(s: Session, ms: seq<Move>): (t: Session)
    requires s.l.s.Valid() && Legal(s, ms)
    decreases ms
  {
    if ms == [] then s else Play(Make(s, ms[0]), ms[1..])
  }

  ghost function Opening(streamId: nat, sendCredit: u64, receiveCredit: u64): Session {
    Session(SendLedger.Ledger(NewSender(streamId, sendCredit), []), {}, View(map[], None, receiveCredit, None))
  }

  ghost predicate Reliable(s: Session) {
    && Safe(WorldOf(s))
    && SendLedger.Accounted(s.l)
    && (forall i | 0 <= i < |s.l.s.acked| :: Arrived(s.r, s.l.s.acked[i]))
  }

  lemma MoveIsReliable(s: Session, m: Move)
    requires Reliable(s) && Enabled(s, m)
    ensures Reliable(Make(s, m))
  {
    MoveIsAnEvent(s, m);
    StepIsSafe(WorldOf(s), AsEvent(s, m));
    if m.SenderMove? {
      SendLedger.StepKeepsBooks(s.l, m.e);
      AckedOnlyGrows(s, m.e);
    } else if m.Deliver? {
      GenuineFrameIsAccepted(WorldOf(s), m.frame);
    }
  }

  lemma AckedOnlyGrows(s: Session, e: SendLedger.Event)
    requires Reliable(s) && Enabled(s, SenderMove(e))
    ensures var acked := SendLedger.Step(s.l, e).s.acked;
            acked == s.l.s.acked || (e.Ack? && acked == s.l.s.acked + [s.l.inFlight[e.index]])
  {
    if e.Send? {
      PopFrameCarriesRange(s.l.s, e.max);
    } else if e.Ack? {
      SendLedger.FinsWithout(s.l.inFlight, e.index);
    }
  }

  lemma {:induction false} PlayIsReliable(s: Session, ms: seq<Move>)
    requires Reliable(s) && Legal(s, ms)
    ensures Reliable(Play(s, ms))
    decreases ms
  {
    if ms != [] {
      MoveIsReliable(s, ms[0]);
      PlayIsReliable(Make(s, ms[0]), ms[1..]);
    }
  }

  lemma QuietSessionHasDelivered(t: Session, delivered: seq<byte>, pending: seq<Segment>)
    requires Reliable(t)
    requires t.l.s.stop.None? && t.l.s.lost == [] && t.l.inFlight == [] && t.l.s.nextUnsent == |t.l.s.bytes|
    requires Reassembly.Stores(delivered, pending, t.r.content)
    ensures delivered == t.l.s.bytes
    ensures t.l.s.finAcked ==> t.r.finalSize == Some(|delivered|)
  {
    SendLedger.QuietMeansAcknowledged(t.l);
    Reassembly.DeliveredIsLongestRun(delivered, pending, t.r.content);
    forall x: nat | x < |t.l.s.bytes|
      ensures x in t.r.content
    {
      assert SendLedger.Hits(t.l.s.acked, x);
      var i :| 0 <= i < |t.l.s.acked| && t.l.s.acked[i].offset <= x < t.l.s.acked[i].End();
      assert Arrived(t.r, t.l.s.acked[i]);
    }
    Reassembly.OneEnd(t.r.content, 0, |delivered|, |t.l.s.bytes|);
    if t.l.s.finAcked {
      SendLedger.SomeFin(t.l.s.acked);
    }
  }

  /**
   * Reliable delivery: in every run in which ranges are acknowledged only after they arrived, a sender with
   * everything sent and nothing lost or in flight has a receiver that delivered every written byte; and if the
   * FIN was acknowledged too, the receiver has closed.
   */
  lemma QuietSenderHasDelivered(
    streamId: nat, sendCredit: u64, receiveCredit: u64, ms: seq<Move>, delivered: seq<byte>, pending: seq<Segment>)
    requires sendCredit <= receiveCredit
    requires Legal(Opening(streamId, sendCredit, receiveCredit), ms)
    requires var t := Play(Opening(streamId, sendCredit, receiveCredit), ms);
             && t.l.s.stop.None? && t.l.s.lost == [] && t.l.inFlight == [] && t.l.s.nextUnsent == |t.l.s.bytes|
             && Reassembly.Stores(delivered, pending, t.r.content)
    ensures var t := Play(Opening(streamId, sendCredit, receiveCredit), ms);
            && delivered == t.l.s.bytes
            && (t.l.s.finAcked ==> t.r.finalSize == Some(|delivered|))
  {
    var start := Opening(streamId, sendCredit, receiveCredit);
    assert Reliable(start);
    PlayIsReliable(start, ms);
    QuietSessionHasDelivered(Play(start, ms), delivered, pending);
  }
}
