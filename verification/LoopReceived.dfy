/**
 * Received packet numbers over whole runs: the loop remembers exactly the numbers it has seen in each live packet
 * number space, sees no number twice, and delivers no packet twice.
 */
module LoopReceived {
  import opened Common
  import opened Frames
  import opened LoopHistory
  import opened LoopInvariant
  import opened LoopRuns
  import opened LoopSpec
  import opened LoopState
  import opened Recovery
  import opened SentRecords
  import FC = FlowControl
  import PayloadBudget
  import PV = PathValidation

  // ---------------------------------------------------------------- what is kept

  /** The numbers a history has seen in a space. */
  ghost function Seen(h: seq<Moment>, s: Space): set<nat> {
    set i | 0 <= i < |h| && h[i].Saw? && h[i].space == s :: h[i].number
  }

  predicate IsEvent(m: Moment) {
    m.Did? && m.action.PacketEvent?
  }

  /** No two moments see the same packet, and no two deliver the same one. */
  ghost predicate EachOnce(h: seq<Moment>) {
    && (forall i, j | 0 <= i < j < |h| && h[i].Saw? && h[j].Saw? :: h[i] != h[j])
    && (forall i, j | 0 <= i < j < |h| && IsEvent(h[i]) && IsEvent(h[j]) :: h[i] != h[j])
  }

  /** A packet is delivered only after it was seen. */
  ghost predicate SeenFirst(h: seq<Moment>) {
    forall i | 0 <= i < |h| && IsEvent(h[i]) :: h[i].action.number in Seen(h[..i], h[i].action.space)
  }

  predicate Live(c: Conn, s: Space) {
    c.state.Active? && !c.keys.Discarded(s)
  }

  ghost predicate Remembers(c: Conn) {
    && EachOnce(c.past) && SeenFirst(c.past)
    && forall s :: c.books.Get(s).received == if Live(c, s) then Seen(c.past, s) else {}
  }

  // ---------------------------------------------------------------- steps that neither see nor deliver

  predicate IsNews(m: Moment) {
    m.Saw? || IsEvent(m)
  }

  ghost predicate NoNews(c: Conn, d: Conn) {
    c.past <= d.past && forall i | |c.past| <= i < |d.past| :: !IsNews(d.past[i])
  }

  /** A live space keeps its numbers, one that ends forgets them, and no space comes back to life. */
  ghost predicate Forgets(c: Conn, d: Conn, s: Space) {
    var x, y := c.books.Get(s).received, d.books.Get(s).received;
    && (Live(d, s) ==> Live(c, s) && y == x)
    && (!Live(d, s) ==> y == {} || (!Live(c, s) && y == x))
  }

  ghost predicate Quiet(c: Conn, d: Conn) {
    NoNews(c, d) && forall s :: Forgets(c, d, s)
  }

  lemma QuietTwice(c: Conn, d: Conn, e: Conn)
    requires Quiet(c, d) && Quiet(d, e)
    ensures Quiet(c, e)
  {
    forall s
      ensures Forgets(c, e, s)
    {
      assert Forgets(c, d, s) && Forgets(d, e, s);
    }
  }

  ghost predicate SameReceived(b: Books, c: Books) {
    forall s :: c.Get(s).received == b.Get(s).received
  }

  lemma QuietSame(c: Conn, d: Conn)
    requires NoNews(c, d) && d.state == c.state && d.keys == c.keys && SameReceived(c.books, d.books)
    ensures Quiet(c, d)
  {
  }

  lemma NoNewsNone(c: Conn, d: Conn)
    requires d.past == c.past
    ensures NoNews(c, d)
  {
  }

  lemma NoNewsOne(c: Conn, d: Conn, m: Moment)
    requires d.past == c.past + [m] && !IsNews(m)
    ensures NoNews(c, d)
  {
  }

  lemma NewsIsNew(h: seq<Moment>, k: seq<Moment>, s: Space)
    requires h <= k && forall i | |h| <= i < |k| :: !IsNews(k[i])
    ensures Seen(k, s) == Seen(h, s)
  {
    forall n | n in Seen(k, s)
      ensures n in Seen(h, s)
    {
      var i :| 0 <= i < |k| && k[i].Saw? && k[i].space == s && k[i].number == n;
      assert i < |h| && h[i] == k[i];
    }
    forall n | n in Seen(h, s)
      ensures n in Seen(k, s)
    {
      var i :| 0 <= i < |h| && h[i].Saw? && h[i].space == s && h[i].number == n;
      assert k[i] == h[i];
    }
  }

  lemma QuietRemembers(c: Conn, d: Conn)
    requires Remembers(c) && Quiet(c, d)
    ensures Remembers(d)
  {
    forall s
      ensures d.books.Get(s).received == if Live(d, s) then Seen(d.past, s) else {}
    {
      assert Forgets(c, d, s);
      NewsIsNew(c.past, d.past, s);
    }
    OldOnesStay(c.past, d.past);
  }

  lemma OldOnesStay(h: seq<Moment>, k: seq<Moment>)
    requires EachOnce(h) && SeenFirst(h) && h <= k && forall i | |h| <= i < |k| :: !IsNews(k[i])
    ensures EachOnce(k) && SeenFirst(k)
  {
    hide Seen;
    forall i | 0 <= i < |k| && IsEvent(k[i])
      ensures k[i].action.number in Seen(k[..i], k[i].action.space)
    {
      assert i < |h| && h[i] == k[i] && h[..i] == k[..i];
    }
  }

  // ---------------------------------------------------------------- the parts of a step

  lemma ToClosingQuiet(c: Conn, at: int)
    ensures Quiet(c, ToClosing(c, at)) && Quiet(c, ToDraining(c, at)) && Quiet(c, ToClosed(c))
  {
    ClearedForgets(c.books);
    NoNewsNone(c, c);
    NoNewsNone(c, ToClosed(c));
    if c.state.Active? {
      NoNewsOne(c, ToClosing(c, at), Did(Close));
    }
    if !c.state.Draining? && !c.state.Closed? {
      NoNewsOne(c, ToDraining(c, at), Did(Close));
    }
    hide NoNews, AllCleared;
  }

  lemma ClearedForgets(b: Books)
    ensures forall s :: AllCleared(b).Get(s).received == {}
  {
  }

  lemma ClearedQuiet(c: Conn, s: Space)
    requires c.keys.Discarded(s)
    ensures Quiet(c, ClearedSpace(c, s))
  {
    NoNewsNone(c, ClearedSpace(c, s));
    hide NoNews;
  }

  lemma PathStepQuiet(c: Conn, e: PV.Event)
    ensures Quiet(c, PathStep(c, e))
  {
    hide PV.Step;
    NoNewsOne(c, PathStep(c, e), OnPath(e));
  }

  lemma EnqueueSame(b: Books, s: Space, frames: seq<Frame>)
    ensures SameReceived(b, Enqueue(b, s, frames)) && SameReceived(b, WithQueue(b, s, frames))
  {
  }

  lemma ChallengeQueuedQuiet(c: Conn, tls: Option<Tls>)
    ensures Quiet(c, ChallengeQueued(c, tls))
  {
    hide PV.Step, Enqueue;
    NoNewsNone(c, c);
    QuietSame(c, c);
    var d := ChallengeQueued(c, tls);
    if d != c {
      EnqueueSame(c.books, AppSpace, [PathChallenge(c.path.pending.value)]);
      NoNewsOne(c, d, OnPath(PV.Queueing));
      QuietSame(c, d);
    }
  }

  lemma ObservedQuiet(c: Conn, tls: Option<Tls>)
    ensures Quiet(c, Observed(c, tls))
  {
    var d := Observed(c, tls);
    NoNewsNone(c, d);
    hide NoNews;
    forall s
      ensures Forgets(c, d, s)
    {
      SweptForgets(c.books, d.keys, s);
    }
  }

  lemma SweptForgets(b: Books, keys: Keys, s: Space)
    ensures Swept(b, keys).Get(s).received == if keys.Discarded(s) then {} else b.Get(s).received
  {
  }

  lemma RefreshedQuiet(c: Conn, tls: Option<Tls>)
    ensures Quiet(c, Refreshed(c, tls))
  {
    hide Quiet, ChallengeQueued, PathStep, Observed;
    NoNewsNone(c, c);
    QuietSame(c, c);
    ObservedQuiet(c, tls);
    var d := if c.dirty then Observed(c, tls) else c;
    var e := PathStep(d, PV.Refresh(tls.Some? && tls.value.confirmed));
    PathStepQuiet(d, PV.Refresh(tls.Some? && tls.value.confirmed));
    QuietTwice(c, d, e);
    ChallengeQueuedQuiet(e, tls);
    QuietTwice(c, e, Refreshed(c, tls));
  }

  lemma PeerMetQuiet(c: Conn, from: Endpoint, at: int, token: Option<PathToken>, tls: Option<Tls>)
    ensures Quiet(c, PeerMet(c, from, at, token, tls))
  {
    hide Quiet, NoNews, ToClosing, ValidationStarted;
    NoNewsNone(c, c);
    QuietSame(c, c);
    ToClosingQuiet(c, at);
    var d := c.(peer := from);
    NoNewsNone(c, d);
    QuietSame(c, d);
    StartQuiet(d, at, token, tls);
    QuietTwice(c, d, ValidationStarted(d, at, token, tls));
  }

  lemma StartQuiet(c: Conn, at: int, token: Option<PathToken>, tls: Option<Tls>)
    ensures Quiet(c, ValidationStarted(c, at, token, tls))
  {
    hide Quiet, NoNews, ToClosing, ChallengeQueued, PathStep, WithQueue, WithoutChallenge;
    var d := ChallengeRemoved(c);
    NoNewsNone(c, d);
    if c.path.pending.Some? {
      EnqueueSame(c.books, AppSpace, WithoutChallenge(c.books.app.queue, c.path.pending.value));
    }
    QuietSame(c, d);
    var e := PathStep(d, if token.None? then PV.Unchallenged else PV.NewPeer(token.value));
    PathStepQuiet(d, if token.None? then PV.Unchallenged else PV.NewPeer(token.value));
    QuietTwice(c, d, e);
    ToClosingQuiet(e, at);
    ChallengeQueuedQuiet(e, tls);
    QuietTwice(c, e, ValidationStarted(c, at, token, tls));
  }

  lemma {:induction false} PathFramesQuiet(c: Conn, frames: seq<Frame>)
    ensures Quiet(c, PathFrames(c, frames))
  {
    hide Quiet, NoNews, PathStep, Enqueue;
    if frames == [] {
      NoNewsNone(c, c);
      QuietSame(c, c);
    } else {
      var n := |frames| - 1;
      var d, f := PathFrames(c, frames[..n]), frames[n];
      PathFramesQuiet(c, frames[..n]);
      NoNewsNone(d, d);
      QuietSame(d, d);
      if f.PathChallenge? {
        EnqueueSame(d.books, AppSpace, [PathResponse(f.pathData)]);
        NoNewsNone(d, PathFrame(d, f));
        QuietSame(d, PathFrame(d, f));
      } else if f.PathResponse? {
        PathStepQuiet(d, PV.Response(f.pathData));
      }
      QuietTwice(c, d, PathFrames(c, frames));
    }
  }

  lemma TellQuiet(c: Conn, s: Space, numbers: seq<nat>, acked: bool)
    ensures Quiet(c, TellStreams(c, s, numbers, acked))
  {
    hide Resolved, RangesOf;
    var d := TellStreams(c, s, numbers, acked);
    assert forall i | |c.past| <= i < |d.past| :: d.past[i] == Tolds(s, numbers, acked)[i - |c.past|];
    QuietSame(c, d);
  }

  lemma AckAppliedSame(b: Books, s: Space, ack: AckFrame)
    ensures SameReceived(b, AckApplied(b, s, ack).books)
  {
    hide OnAck, MarkAll;
  }

  lemma AckTakenQuiet(c: Conn, s: Space, ack: AckFrame, at: int)
    ensures Quiet(c, AckTaken(c, s, ack, at))
  {
    hide Quiet, NoNews, TellStreams, AckApplied, Measured;
    var o := AckApplied(c.books, s, ack);
    var d := c.(books := o.books, rtt := Measured(c, s, o.acked, ack, at));
    AckAppliedSame(c.books, s, ack);
    NoNewsNone(c, d);
    QuietSame(c, d);
    var e := TellStreams(d, s, o.acked, true);
    TellQuiet(d, s, o.acked, true);
    QuietTwice(c, d, e);
    TellQuiet(e, s, o.lost, false);
    QuietTwice(c, e, AckTaken(c, s, ack, at));
  }

  lemma {:induction false} AckFramesQuiet(c: Conn, s: Space, frames: seq<Frame>, at: int)
    ensures Quiet(c, AckFrames(c, s, frames, at))
  {
    hide Quiet, NoNews, AckTaken;
    if frames == [] {
      NoNewsNone(c, c);
      QuietSame(c, c);
    } else {
      var n := |frames| - 1;
      AckFramesQuiet(c, s, frames[..n], at);
      if frames[n].Ack? {
        AckTakenQuiet(AckFrames(c, s, frames[..n], at), s, frames[n].ack, at);
        QuietTwice(c, AckFrames(c, s, frames[..n], at), AckFrames(c, s, frames, at));
      }
    }
  }

  lemma StreamStepQuiet(c: Conn, d: Conn, e: FC.Event)
    requires d == c.(flow := d.flow, past := c.past + [OnStreams(e)])
    ensures Quiet(c, d)
  {
    NoNewsOne(c, d, OnStreams(e));
    QuietSame(c, d);
  }

  lemma {:induction false} CreditFramesQuiet(c: Conn, frames: seq<WireFrame>)
    ensures Quiet(c, CreditFrames(c, frames))
  {
    hide Quiet, NoNews, FC.RaiseData, FC.RaiseStreamData, FC.RaiseStreams;
    if frames == [] {
      NoNewsNone(c, c);
      QuietSame(c, c);
    } else {
      var n := |frames| - 1;
      var d, f := CreditFrames(c, frames[..n]), frames[n];
      CreditFramesQuiet(c, frames[..n]);
      match f {
        case MaxStreamData(id, maximum) => StreamStepQuiet(d, CreditFrame(d, f), FC.StreamDataGrant(id, maximum));
        case MaxData(maximum) => StreamStepQuiet(d, CreditFrame(d, f), FC.DataGrant(maximum));
        case MaxStreams(direction, maximum) =>
          StreamStepQuiet(d, CreditFrame(d, f), FC.StreamsGrant(direction, maximum));
        case _ =>
          NoNewsNone(d, d);
          QuietSame(d, d);
      }
      QuietTwice(c, d, CreditFrames(c, frames));
    }
  }

  lemma {:induction false} StopFramesQuiet(c: Conn, frames: seq<Frame>)
    ensures Quiet(c, StopFrames(c, frames))
  {
    hide Quiet, NoNews, FC.Halt;
    if frames == [] {
      NoNewsNone(c, c);
      QuietSame(c, c);
    } else {
      var n := |frames| - 1;
      var d, f := StopFrames(c, frames[..n]), frames[n];
      StopFramesQuiet(c, frames[..n]);
      if f.StopSending? {
        StreamStepQuiet(d, StopFrame(d, f), FC.Halted(f.streamId, f.errorCode));
        QuietTwice(c, d, StopFrames(c, frames));
      }
    }
  }

  lemma RecordedQuiet(c: Conn, p: Parsed, retired: seq<nat>, at: int)
    ensures Quiet(c, Recorded(c, p, retired, at))
  {
    hide Quiet, NoNews, Enqueue, PathFrames, AckFrames, CreditFrames;
    var c1 := RetirementsQueued(c, retired);
    EnqueueSame(c.books, AppSpace, Retirements(retired));
    NoNewsNone(c, c1);
    QuietSame(c, c1);
    var c2 := PathFrames(c1, p.frames);
    PathFramesQuiet(c1, p.frames);
    QuietTwice(c, c1, c2);
    var c3 := AckFrames(c2, p.space, p.frames, at);
    AckFramesQuiet(c2, p.space, p.frames, at);
    QuietTwice(c, c2, c3);
    CreditFramesQuiet(c3, p.frames);
    QuietTwice(c, c3, CreditFrames(c3, p.frames));
  }

  // ---------------------------------------------------------------- a packet

  /** The packet has been seen and not been delivered. */
  ghost predicate Underway(c: Conn, s: Space, n: nat) {
    && n in Seen(c.past, s)
    && forall i | 0 <= i < |c.past| && IsEvent(c.past[i]) :: c.past[i] != Did(PacketEvent(s, n))
  }

  lemma QuietUnderway(c: Conn, d: Conn, s: Space, n: nat)
    requires Quiet(c, d) && Underway(c, s, n)
    ensures Underway(d, s, n)
  {
    NewsIsNew(c.past, d.past, s);
    forall i | 0 <= i < |d.past| && IsEvent(d.past[i])
      ensures d.past[i] != Did(PacketEvent(s, n))
    {
      assert i < |c.past| && d.past[i] == c.past[i];
    }
  }

  lemma NoticedRemembers(c: Conn, s: Space, n: nat)
    requires Remembers(c) && Live(c, s) && n !in c.books.Get(s).received
    ensures Remembers(Noticed(c, s, n)) && Underway(Noticed(c, s, n), s, n)
  {
    var d, h := Noticed(c, s, n), c.past;
    var k := h + [Saw(s, n)];
    SeenGrows(h, s, n);
    forall t
      ensures d.books.Get(t).received == if Live(d, t) then Seen(k, t) else {}
    {
      assert Live(d, t) == Live(c, t);
      assert d.books.Get(t).received == c.books.Get(t).received + if t == s then {n} else {};
    }
    NewNumberOnce(h, s, n);
  }

  lemma SeenGrows(h: seq<Moment>, s: Space, n: nat)
    ensures forall t :: Seen(h + [Saw(s, n)], t) == Seen(h, t) + if t == s then {n} else {}
  {
    var k := h + [Saw(s, n)];
    forall t
      ensures Seen(k, t) == Seen(h, t) + if t == s then {n} else {}
    {
      forall x | x in Seen(h, t)
        ensures x in Seen(k, t)
      {
        var i :| 0 <= i < |h| && h[i].Saw? && h[i].space == t && h[i].number == x;
        assert k[i] == h[i];
      }
      assert k[|h|] == Saw(s, n);
    }
  }

  lemma NewNumberOnce(h: seq<Moment>, s: Space, n: nat)
    requires EachOnce(h) && SeenFirst(h) && n !in Seen(h, s)
    ensures EachOnce(h + [Saw(s, n)]) && SeenFirst(h + [Saw(s, n)])
    ensures forall i | 0 <= i < |h| && IsEvent(h[i]) :: h[i] != Did(PacketEvent(s, n))
  {
    var k := h + [Saw(s, n)];
    forall i | 0 <= i < |h| && h[i].Saw?
      ensures h[i] != Saw(s, n)
    {
      assert h[i].space == s ==> h[i].number in Seen(h, s);
    }
    forall i | 0 <= i < |k| && IsEvent(k[i])
      ensures k[i].action.number in Seen(k[..i], k[i].action.space)
    {
      assert i < |h| && k[i] == h[i] && k[..i] == h[..i];
    }
    forall i | 0 <= i < |h| && IsEvent(h[i])
      ensures h[i] != Did(PacketEvent(s, n))
    {
      SeenBefore(h, i, h[i].action.space);
    }
  }

  lemma SeenBefore(h: seq<Moment>, i: nat, s: Space)
    requires i <= |h|
    ensures Seen(h[..i], s) <= Seen(h, s)
  {
    forall x | x in Seen(h[..i], s)
      ensures x in Seen(h, s)
    {
      var j :| 0 <= j < i && h[..i][j].Saw? && h[..i][j].space == s && h[..i][j].number == x;
      assert h[j] == h[..i][j];
    }
  }

  /** Delivering a packet that is under way. */
  lemma EventRemembers(c: Conn, s: Space, n: nat)
    requires Remembers(c) && Underway(c, s, n)
    ensures Remembers(Act(c, PacketEvent(s, n)))
  {
    var h, m := c.past, Did(PacketEvent(s, n));
    var k := h + [m];
    forall t
      ensures Seen(k, t) == Seen(h, t)
    {
      SeenWithEvent(h, m, t);
    }
    forall i | 0 <= i < |k| && IsEvent(k[i])
      ensures k[i].action.number in Seen(k[..i], k[i].action.space)
    {
      assert k[..i] == h[..i];
      if i == |h| {
        assert h[..i] == h;
      } else {
        assert k[i] == h[i];
      }
    }
  }

  lemma SeenWithEvent(h: seq<Moment>, m: Moment, s: Space)
    requires !m.Saw?
    ensures Seen(h + [m], s) == Seen(h, s)
  {
    var k := h + [m];
    forall x | x in Seen(h, s)
      ensures x in Seen(k, s)
    {
      var i :| 0 <= i < |h| && h[i].Saw? && h[i].space == s && h[i].number == x;
      assert k[i] == h[i];
    }
  }

  lemma DeliveredRemembers(c: Conn, p: Parsed, at: int, env: PacketEnv)
    requires Remembers(c) && Underway(c, p.space, p.number)
    ensures Remembers(Delivered(c, p, at, env))
  {
    hide Remembers, Quiet, NoNews, Underway, ToClosing, Refreshed, StopFrames, HasCrypto, StreamRefused;
    var c1 := ControlTaken(c, p.frames, env.refused);
    StopFramesQuiet(c, p.frames[..FirstReset(p.frames, env.refused, 0)]);
    ToClosingQuiet(c1, at);
    QuietTwice(c, c1, ToClosing(c1, at));
    var c2 := CryptoTaken(c1, p.frames, env.before, env.refused);
    NoNewsNone(c1, c2);
    QuietSame(c1, c2);
    QuietTwice(c, c1, c2);
    ToClosingQuiet(c2, at);
    QuietTwice(c, c2, ToClosing(c2, at));
    var c3 := Refreshed(c2, env.after);
    RefreshedQuiet(c2, env.after);
    QuietTwice(c, c2, c3);
    ToClosingQuiet(c3, at);
    QuietTwice(c, c3, ToClosing(c3, at));
    var d := Delivered(c, p, at, env);
    if d == Act(c3, PacketEvent(p.space, p.number)) {
      QuietRemembers(c, c3);
      QuietUnderway(c, c3, p.space, p.number);
      EventRemembers(c3, p.space, p.number);
    } else {
      QuietRemembers(c, d);
    }
  }

  lemma FramesTakenRemember(c: Conn, p: Parsed, at: int, env: PacketEnv)
    requires Remembers(c) && Underway(c, p.space, p.number)
    ensures Remembers(FramesTaken(c, p, at, env))
  {
    hide Remembers, Quiet, NoNews, Underway, ToClosing, ToDraining, Recorded, Delivered, AllAllowed, PeerCloses;
    ToClosingQuiet(c, at);
    QuietRemembers(c, ToClosing(c, at));
    QuietRemembers(c, ToDraining(c, at));
    if env.retired.Some? {
      var d := Recorded(c, p, env.retired.value, at);
      RecordedQuiet(c, p, env.retired.value, at);
      QuietRemembers(c, d);
      QuietUnderway(c, d, p.space, p.number);
      DeliveredRemembers(d, p, at, env);
    }
  }

  lemma ProcessedRemembers(c: Conn, p: Parsed, from: Endpoint, size: u64, at: int, env: PacketEnv)
    requires Remembers(c) && Live(c, p.space)
    ensures Remembers(Processed(c, p, from, size, at, env))
  {
    hide Remembers, Quiet, NoNews, Underway, PeerMet, FramesTaken, PathStep, Noticed;
    if p.number !in c.books.Get(p.space).received {
      var c0 := Noticed(c, p.space, p.number);
      NoticedRemembers(c, p.space, p.number);
      var c1 := PeerMet(c0, from, at, env.token, env.before);
      PeerMetQuiet(c0, from, at, env.token, env.before);
      QuietRemembers(c0, c1);
      QuietUnderway(c0, c1, p.space, p.number);
      var c2 := CountReceived(c1, size, at);
      CountQuiet(c1, size, at);
      QuietRemembers(c1, c2);
      QuietUnderway(c1, c2, p.space, p.number);
      FramesTakenRemember(c2, p, at, env);
    }
  }

  lemma CountQuiet(c: Conn, size: u64, at: int)
    ensures Quiet(c, CountReceived(c, size, at))
  {
    hide PV.Step;
    NoNewsOne(c, CountReceived(c, size, at), OnPath(PV.Arrival(size)));
    QuietSame(c, CountReceived(c, size, at));
  }

  // ---------------------------------------------------------------- calls

  lemma {:induction false} ChunksRemember(c: Conn, chunks: seq<Chunk>, from: Endpoint, at: int)
    requires Remembers(c) && c.state.Active?
    ensures Remembers(ChunksTaken(c, chunks, from, at))
    decreases chunks
  {
    hide Remembers, Quiet, Processed, ToClosing;
    if chunks != [] {
      ToClosingQuiet(c, at);
      QuietRemembers(c, ToClosing(c, at));
      if chunks[0].LongPacket? {
        var k, rest := chunks[0], chunks[1..];
        if c.keys.Discarded(k.space) {
          ClearedQuiet(c, k.space);
          QuietRemembers(c, ClearedSpace(c, k.space));
          ChunksRemember(ClearedSpace(c, k.space), rest, from, at);
        } else if k.parsed.Some? {
          var d := Processed(c, PacketIn(k.space, k.parsed.value), from, k.size, at, k.env);
          ProcessedRemembers(c, PacketIn(k.space, k.parsed.value), from, k.size, at, k.env);
          ToClosingQuiet(d, at);
          QuietRemembers(d, ToClosing(d, at));
          if d.state.Active? {
            ChunksRemember(d, rest, from, at);
          }
        }
      }
    }
  }

  lemma DatagramRemembers(c: Conn, d: Inbound, from: Endpoint, at: int, tls: Option<Tls>)
    requires Remembers(c)
    ensures Remembers(DatagramTaken(c, d, from, at, tls))
  {
    hide Remembers, Quiet, Processed, ToClosing, ToDraining, ChunksTaken, Refreshed;
    if c.state.Active? {
      var c1 := Refreshed(c, tls);
      RefreshedQuiet(c, tls);
      QuietRemembers(c, c1);
      RefreshKeepsState(c, tls);
      ToClosingQuiet(c1, at);
      QuietRemembers(c1, ToClosing(c1, at));
      QuietRemembers(c1, ToDraining(c1, at));
      match d
      case LongDatagram(chunks) => ChunksRemember(c1, chunks, from, at);
      case ShortDatagram(size, parsed, statelessReset, env) =>
        if c1.keys.Discarded(AppSpace) {
          ClearedQuiet(c1, AppSpace);
          QuietRemembers(c1, ClearedSpace(c1, AppSpace));
        } else if parsed.Some? {
          ProcessedRemembers(c1, PacketIn(AppSpace, parsed.value), from, size, at, env);
        }
    }
  }

  lemma RefreshKeepsState(c: Conn, tls: Option<Tls>)
    ensures Refreshed(c, tls).state == c.state
  {
    hide Swept, PV.Step, Enqueue;
  }

  lemma PacketSentQuiet(
    c: Conn, s: Space, at: int, frames: seq<Frame>, ackEliciting: bool, size: u64, taken: nat)
    requires taken <= |c.books.Get(s).queue|
    ensures Quiet(c, PacketSent(c, s, at, frames, ackEliciting, size, taken))
  {
    hide PV.Emitted, StreamRanges;
    var d := PacketSent(c, s, at, frames, ackEliciting, size, taken);
    NoNewsOne(c, d, Did(Datagram(s, c.books.Get(s).next, frames, size)));
    QuietSame(c, d);
  }

  lemma SpaceFlushedQuiet(c: Conn, s: Space, at: int, tls: Option<Tls>, env: SendEnv)
    ensures Quiet(c, SpaceFlushed(c, s, at, tls, env))
  {
    hide Quiet, NoNews, PacketSent, ToClosing, ClearedSpace, Sendable, PV.Allows, PayloadBudget.Front, AckEliciting;
    NoNewsNone(c, c);
    QuietSame(c, c);
    if c.keys.Discarded(s) {
      ClearedQuiet(c, s);
    }
    ToClosingQuiet(c, at);
    var queue := c.books.Get(s).queue;
    var taken := PayloadBudget.Front(queue, c.config.maxPayload);
    if env.assembled.Some? {
      var e := PacketSent(c, s, at, queue[..taken], AckEliciting(queue[..taken]), env.assembled.value, taken);
      PacketSentQuiet(c, s, at, queue[..taken], AckEliciting(queue[..taken]), env.assembled.value, taken);
      NoNewsNone(e, e.(lastActivity := Some(at)));
      QuietSame(e, e.(lastActivity := Some(at)));
      QuietTwice(c, e, e.(lastActivity := Some(at)));
    }
    SendableMeans(c, s, tls, env);
  }

  lemma SendableMeans(c: Conn, s: Space, tls: Option<Tls>, env: SendEnv)
    ensures Sendable(c, s, tls, env) ==> env.assembled.Some?
  {
  }

  lemma SpacesFlushedQuiet(c: Conn, at: int, env: FlushEnv)
    ensures Quiet(c, SpacesFlushed(c, at, env))
  {
    hide Quiet, NoNews, SpaceFlushed;
    NoNewsNone(c, c);
    QuietSame(c, c);
    var c1 := SpaceFlushed(c, InitialSpace, at, env.after, env.initial);
    SpaceFlushedQuiet(c, InitialSpace, at, env.after, env.initial);
    var c2 := SpaceFlushed(c1, HandshakeSpace, at, env.after, env.handshake);
    SpaceFlushedQuiet(c1, HandshakeSpace, at, env.after, env.handshake);
    QuietTwice(c, c1, c2);
    var c3 := SpaceFlushed(c2, AppSpace, at, env.after, env.application);
    SpaceFlushedQuiet(c2, AppSpace, at, env.after, env.application);
    QuietTwice(c, c2, c3);
  }

  lemma {:induction false} ItemsQuiet(c: Conn, items: seq<CryptoItem>, clock: int)
    ensures Quiet(c, ItemsPumped(c, items, clock))
    decreases items
  {
    hide Quiet, NoNews, Enqueue, ToClosing;
    NoNewsNone(c, c);
    QuietSame(c, c);
    if items != [] {
      ToClosingQuiet(c, clock);
      ItemsQuiet(c, items[1..], clock);
      if items[0].frames.Some? {
        var d := c.(books := Enqueue(c.books, items[0].space, items[0].frames.value));
        EnqueueSame(c.books, items[0].space, items[0].frames.value);
        NoNewsNone(c, d);
        QuietSame(c, d);
        ItemsQuiet(d, items[1..], clock);
        QuietTwice(c, d, ItemsPumped(d, items[1..], clock));
      }
    }
  }

  lemma FlushedQuiet(c: Conn, at: int, env: FlushEnv)
    ensures Quiet(c, Flushed(c, at, env))
  {
    hide Quiet, NoNews, Refreshed, ItemsPumped, SpacesFlushed, ToClosing;
    NoNewsNone(c, c);
    QuietSame(c, c);
    var c1 := Refreshed(c, env.before);
    RefreshedQuiet(c, env.before);
    var c2 := Pumped(c1, env.pump, env.clock);
    PumpedQuiet(c1, env.pump, env.clock);
    QuietTwice(c, c1, c2);
    var c3 := Refreshed(c2, env.after);
    RefreshedQuiet(c2, env.after);
    QuietTwice(c, c2, c3);
    SpacesFlushedQuiet(c3, at, env);
    QuietTwice(c, c3, SpacesFlushed(c3, at, env));
  }

  lemma PumpedQuiet(c: Conn, pump: Pump, clock: int)
    ensures Quiet(c, Pumped(c, pump, clock))
  {
    hide Quiet, NoNews, ItemsPumped, ToClosing;
    NoNewsNone(c, c);
    QuietSame(c, c);
    ToClosingQuiet(c, clock);
    if pump.Drained? {
      var d := c.(dirty := true);
      NoNewsNone(c, d);
      QuietSame(c, d);
      ItemsQuiet(d, pump.items, clock);
      QuietTwice(c, d, ItemsPumped(d, pump.items, clock));
    }
  }

  lemma AckSentQuiet(c: Conn, s: Space, at: int, tls: Option<Tls>, assembled: Option<u64>)
    ensures Quiet(c, AckSent(c, s, at, tls, assembled))
  {
    hide Quiet, NoNews, Refreshed, PacketSent, ToClosing, ClearedSpace, PV.Allows, AckFor;
    NoNewsNone(c, c);
    QuietSame(c, c);
    var c1 := Refreshed(c, tls);
    RefreshedQuiet(c, tls);
    var received := c1.books.Get(s).received;
    if c1.keys.Discarded(s) {
      ClearedQuiet(c1, s);
      QuietTwice(c, c1, ClearedSpace(c1, s));
    }
    ToClosingQuiet(c1, at);
    QuietTwice(c, c1, ToClosing(c1, at));
    if assembled.Some? {
      PacketSentQuiet(c1, s, at, [Ack(AckFor(received))], false, assembled.value, 0);
      QuietTwice(c, c1, PacketSent(c1, s, at, [Ack(AckFor(received))], false, assembled.value, 0));
    }
  }

  lemma RetireSame(b: Books, s: Space, numbers: seq<nat>, st: PacketState)
    ensures SameReceived(b, Retire(b, s, numbers, st))
  {
    hide MarkSent, MarkAll;
  }

  lemma TimerFiredQuiet(c: Conn, s: Space, now: int, tls: Option<Tls>)
    ensures Quiet(c, TimerFired(c, s, now, tls)) && Quiet(c, NextTimerAsked(c, tls))
  {
    hide Quiet, NoNews, Refreshed, ClearedSpace, TellStreams, LossesDue, Retire;
    NoNewsNone(c, c);
    QuietSame(c, c);
    var c1 := Refreshed(c, tls);
    RefreshedQuiet(c, tls);
    if c1.keys.Discarded(s) {
      ClearedQuiet(c1, s);
      QuietTwice(c, c1, ClearedSpace(c1, s));
    }
    var lost := LossesDue(c1, s, now);
    var d := c1.(books := Retire(c1.books, s, lost, Lost));
    RetireSame(c1.books, s, lost, Lost);
    NoNewsNone(c1, d);
    QuietSame(c1, d);
    QuietTwice(c, c1, d);
    TellQuiet(d, s, lost, false);
    QuietTwice(c, d, TellStreams(d, s, lost, false));
  }

  lemma LifecycleQuiet(c: Conn, kind: TimerKind, now: int)
    ensures Quiet(c, LifecycleAsked(c, now)) && Quiet(c, LifecycleFired(c, kind, now))
  {
    hide Quiet, NoNews, ToClosing, ToClosed, Lifecycle;
    var d := LifecycleAsked(c, now);
    NoNewsNone(c, d);
    QuietSame(c, d);
    ToClosingQuiet(d, now);
    QuietTwice(c, d, ToClosing(d, now));
    QuietTwice(c, d, ToClosed(d));
  }

  lemma SpaceDiscardedQuiet(c: Conn, s: Space)
    ensures Quiet(c, SpaceDiscarded(c, s))
  {
    var d := SpaceDiscarded(c, s);
    NoNewsNone(c, d);
    forall t
      ensures Forgets(c, d, t)
    {
    }
  }

  lemma SmallCallsQuiet(c: Conn, call: Call)
    requires c.flow.Valid()
    requires call.CallQueue? || call.CallAppend? || call.CallSchedule? || call.CallMaxData? || call.CallRttSample?
          || call.CallDrain?
    ensures Quiet(c, Step(c, call))
  {
    hide NoNews, FC.Flow.Valid, FC.Write, FC.Schedule, FC.RaiseData, WithQueue, Flushed, AckSent, DatagramTaken,
      TimerFired, LifecycleFired, LifecycleAsked, NextTimerAsked, SpaceDiscarded;
    NoNewsNone(c, c);
    var d := Step(c, call);
    match call
    case CallQueue(space, frames) =>
      EnqueueSame(c.books, space, frames);
      NoNewsNone(c, d);
    case CallAppend(id, data) =>
      if c.state.Active? {
        NoNewsOne(c, d, OnStreams(FC.Writing(id, data)));
      }
    case CallSchedule(ids, maxFrames, maxSize) =>
      if c.state.Active? {
        NoNewsOne(c, d, OnStreams(FC.Pass(ids, maxFrames, maxSize)));
      }
    case CallMaxData(limit) => NoNewsOne(c, d, OnStreams(FC.DataGrant(limit)));
    case CallRttSample(_) => NoNewsNone(c, d);
    case CallDrain => NoNewsOne(c, d, Handed(c.actions));
  }

  lemma StepRemembers(c: Conn, call: Call)
    requires c.flow.Valid() && Remembers(c)
    ensures Remembers(Step(c, call))
  {
    hide Remembers, Quiet, FC.Flow.Valid, Flushed, AckSent, DatagramTaken, TimerFired, LifecycleFired, LifecycleAsked,
      NextTimerAsked, SpaceDiscarded, FramesQueued, DataAppended, Scheduled, DataLimitRaised, ActionsTaken;
    match call
    case CallDatagram(inbound, from, at, tls) => DatagramRemembers(c, inbound, from, at, tls);
    case CallFlush(at, env) =>
      FlushedQuiet(c, at, env);
      QuietRemembers(c, Flushed(c, at, env));
    case CallAcknowledge(space, at, tls, assembled) =>
      AckSentQuiet(c, space, at, tls, assembled);
      QuietRemembers(c, AckSent(c, space, at, tls, assembled));
    case CallRecoveryTimer(space, at, tls) =>
      TimerFiredQuiet(c, space, at, tls);
      QuietRemembers(c, TimerFired(c, space, at, tls));
    case CallNextRecoveryTimer(tls) =>
      TimerFiredQuiet(c, InitialSpace, 0, tls);
      QuietRemembers(c, NextTimerAsked(c, tls));
    case CallLifecycleTimer(kind, at) =>
      LifecycleQuiet(c, kind, at);
      QuietRemembers(c, LifecycleFired(c, kind, at));
    case CallNextLifecycleTimer(at) =>
      LifecycleQuiet(c, IdleTimer, at);
      QuietRemembers(c, LifecycleAsked(c, at));
    case CallDiscard(space) =>
      SpaceDiscardedQuiet(c, space);
      QuietRemembers(c, SpaceDiscarded(c, space));
    case _ =>
      SmallCallsQuiet(c, call);
      QuietRemembers(c, Step(c, call));
  }

  // ---------------------------------------------------------------- theorems

  /**
   * Over every run: a live space remembers exactly the numbers seen in it, a space that has ended remembers none; no
   * number of a space is seen twice, and no packet is delivered twice or without having been seen.
   */
  lemma {:induction false} RunRemembers(config: Config, peer: Endpoint, calls: seq<Call>)
    ensures Inv(NewConn(config, peer))
    ensures var c := Run(NewConn(config, peer), calls);
            && (forall s :: c.books.Get(s).received == if Live(c, s) then Seen(c.past, s) else {})
            && EachOnce(c.past) && SeenFirst(c.past)
    decreases |calls|
  {
    hide Inv, Step, EachOnce, SeenFirst;
    NewConnIsOk(config, peer);
    var start := NewConn(config, peer);
    if calls == [] {
      NothingSeen(config, peer);
    } else {
      var front, call := calls[..|calls| - 1], calls[|calls| - 1];
      RunRemembers(config, peer, front);
      StepKeeps(Run(start, front), call);
      StepRemembers(Run(start, front), call);
    }
  }

  lemma NothingSeen(config: Config, peer: Endpoint)
    ensures Remembers(NewConn(config, peer))
  {
  }

  /**
   * A packet in a live space, one step: its number is remembered unless the space ends with it; others are untouched.
   */
  lemma PacketIsRemembered(c: Conn, p: Parsed, from: Endpoint, size: u64, at: int, env: PacketEnv, s: Space)
    requires Remembers(c) && Live(c, p.space)
    ensures var d := Processed(c, p, from, size, at, env);
            && (Live(d, s) ==>
                  d.books.Get(s).received == c.books.Get(s).received + if s == p.space then {p.number} else {})
            && (!Live(d, s) ==> d.books.Get(s).received == {})
  {
    hide PeerMet, FramesTaken, PathStep, EachOnce, SeenFirst, Seen;
    ProcessedRemembers(c, p, from, size, at, env);
    var d := Processed(c, p, from, size, at, env);
    if p.number !in c.books.Get(p.space).received {
      ProcessedForgets(c, p, from, size, at, env, s);
    }
  }

  lemma ProcessedForgets(c: Conn, p: Parsed, from: Endpoint, size: u64, at: int, env: PacketEnv, s: Space)
    requires p.number !in c.books.Get(p.space).received
    ensures Forgets(Noticed(c, p.space, p.number), Processed(c, p, from, size, at, env), s)
  {
    hide Forgets, PeerMet, FramesTaken, CountReceived, Noticed;
    var c0 := Noticed(c, p.space, p.number);
    var c1 := PeerMet(c0, from, at, env.token, env.before);
    PeerMetQuiet(c0, from, at, env.token, env.before);
    var c2 := CountReceived(c1, size, at);
    CountQuiet(c1, size, at);
    FramesForget(c2, p, at, env, s);
    ForgetsTwice(c0, c1, c2, s);
    ForgetsTwice(c0, c2, FramesTaken(c2, p, at, env), s);
  }

  lemma ForgetsTwice(c: Conn, d: Conn, e: Conn, s: Space)
    requires Forgets(c, d, s) && Forgets(d, e, s)
    ensures Forgets(c, e, s)
  {
  }

  lemma FramesForget(c: Conn, p: Parsed, at: int, env: PacketEnv, s: Space)
    ensures Forgets(c, FramesTaken(c, p, at, env), s)
  {
    hide Forgets, NoNews, ToClosing, ToDraining, Recorded, Delivered, AllAllowed, PeerCloses;
    ToClosingQuiet(c, at);
    if env.retired.Some? {
      var d := Recorded(c, p, env.retired.value, at);
      RecordedQuiet(c, p, env.retired.value, at);
      DeliveredForgets(d, p, at, env, s);
      ForgetsTwice(c, d, Delivered(d, p, at, env), s);
    }
  }

  lemma DeliveredForgets(c: Conn, p: Parsed, at: int, env: PacketEnv, s: Space)
    ensures Forgets(c, Delivered(c, p, at, env), s)
  {
    hide NoNews, Forgets, ToClosing, Refreshed, StopFrames, HasCrypto, StreamRefused;
    var c1 := ControlTaken(c, p.frames, env.refused);
    StopFramesQuiet(c, p.frames[..FirstReset(p.frames, env.refused, 0)]);
    ToClosingQuiet(c1, at);
    ForgetsTwice(c, c1, ToClosing(c1, at), s);
    var c2 := CryptoTaken(c1, p.frames, env.before, env.refused);
    NoNewsNone(c1, c2);
    QuietSame(c1, c2);
    ForgetsTwice(c, c1, c2, s);
    ToClosingQuiet(c2, at);
    ForgetsTwice(c, c2, ToClosing(c2, at), s);
    var c3 := Refreshed(c2, env.after);
    RefreshedQuiet(c2, env.after);
    ForgetsTwice(c, c2, c3, s);
    ToClosingQuiet(c3, at);
    ForgetsTwice(c, c3, ToClosing(c3, at), s);
    var c4 := Act(c3, PacketEvent(p.space, p.number));
    ActForgets(c3, PacketEvent(p.space, p.number), s);
    ForgetsTwice(c, c3, c4, s);
  }

  lemma ActForgets(c: Conn, a: Action, s: Space)
    ensures Forgets(c, Act(c, a), s)
  {
  }
}
