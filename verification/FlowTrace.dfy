/**
 * What an event does to the sending streams, field by field, and what a scheduling pass hands out, service by service;
 * both are stated in the terms of the state and the event alone.
 */
module FlowTrace {
  import opened Common
  import opened Frames
  import opened StreamSend
  import opened FlowControl

  // ---------------------------------------------------------------- single events

  /** The stream exists, or its index is below what the peer allows in its direction. */
  ghost predicate Usable(f: Flow, id: nat) {
    id in f.streams || id / 4 < if id % 4 < 2 then f.bidiLimit else f.uniLimit
  }

  /** The event writes to the stream or ends it. */
  ghost predicate Addresses(e: Event, id: nat) {
    (e.Writing? && e.id == id) || (e.Ending? && e.id == id)
  }

  /** The event resolves a sent range of the stream or stops it. */
  ghost predicate Answers(e: Event, id: nat) {
    (e.Confirmed? || e.Missed? || e.Halted?) && e.stream == id
  }

  /** The sender of a stream, or the one a first use makes. */
  ghost function SenderOf(f: Flow, id: nat): Sender {
    if id in f.streams then f.streams[id]
    else Sender(id, f.initialMaxData, [], 0, false, false, false, None, [], [])
  }

  lemma DirectionExactly(id: nat)
    ensures DirectionOf(id).Bidirectional? <==> id % 4 < 2
  {
  }

  lemma UsableExactly(f: Flow, id: nat)
    ensures MayOpen(f, id) <==> Usable(f, id)
    ensures StateFor(f, id) == SenderOf(f, id)
  {
    DirectionExactly(id);
  }

  /** How an event outside a pass takes one stream from `f` to `g`. */
  ghost predicate StreamFollows(f: Flow, e: Event, id: nat, g: Flow) {
    var s, t := SenderOf(f, id), SenderOf(g, id);
    var grant := e.StreamDataGrant? && e.id == id;
    var stops := e.Halted? && e.stream == id && id in f.streams;
    && (id in g.streams <==> id in f.streams || (Addresses(e, id) && Usable(f, id)) || grant)
    && t.streamId == s.streamId && t.nextUnsent == s.nextUnsent
    && t.maxData == (if grant && s.maxData < e.limit then e.limit else s.maxData)
    && t.bytes == s.bytes + (if e.Writing? && e.id == id && Usable(f, id) && s.stop == None && !s.finished
                                && |s.bytes| + |e.data| < 0x1_0000_0000_0000_0000 then e.data else [])
    && (t.finished <==> s.finished || (e.Ending? && e.id == id && Usable(f, id) && s.stop == None))
    && t.stop == (if stops then Some(e.code) else s.stop)
    && (!Answers(e, id) || e.Halted? ==>
          && t.lost == (if stops then [] else s.lost)
          && t.acked == s.acked && t.finSent == s.finSent && t.finAcked == s.finAcked)
    && (e.Confirmed? && e.stream == id ==> t == if id in f.streams then OnAcked(s, e.r) else s)
    && (e.Missed? && e.stream == id ==> t == if id in f.streams then OnLost(s, e.r) else s)
  }

  lemma WriteOnStream(f: Flow, to: u64, data: seq<byte>, id: nat)
    requires f.Valid()
    ensures StreamFollows(f, Writing(to, data), id, Step(f, Writing(to, data)).0)
  {
    hide Flow.Valid, OnAcked, OnLost, Usable, MayOpen, StateFor;
    UsableExactly(f, to);
    var s := SenderOf(f, id);
    assert s.bytes + [] == s.bytes;
  }

  lemma EndOnStream(f: Flow, to: u64, id: nat)
    requires f.Valid()
    ensures StreamFollows(f, Ending(to), id, Step(f, Ending(to)).0)
  {
    hide Flow.Valid, OnAcked, OnLost, Usable, MayOpen, StateFor;
    UsableExactly(f, to);
    var s := SenderOf(f, id);
    assert s.bytes + [] == s.bytes;
  }

  lemma AnswerOnStream(f: Flow, e: Event, id: nat)
    requires f.Valid() && (e.Confirmed? || e.Missed?)
    ensures StreamFollows(f, e, id, Step(f, e).0)
  {
    hide Flow.Valid, OnAcked, OnLost, Usable;
    var s := SenderOf(f, id);
    assert s.bytes + [] == s.bytes;
    AnswersKeep(s, e.r);
  }

  lemma StopOnStream(f: Flow, of: nat, code: nat, id: nat)
    requires f.Valid()
    ensures StreamFollows(f, Halted(of, code), id, Step(f, Halted(of, code)).0)
  {
    hide Flow.Valid, OnAcked, OnLost, Usable;
    var s := SenderOf(f, id);
    assert s.bytes + [] == s.bytes;
  }

  lemma GrantOnStream(f: Flow, e: Event, id: nat)
    requires f.Valid() && (e.DataGrant? || e.StreamDataGrant? || e.StreamsGrant?)
    ensures StreamFollows(f, e, id, Step(f, e).0)
  {
    hide Flow.Valid, OnAcked, OnLost, Usable;
    var s := SenderOf(f, id);
    assert s.bytes + [] == s.bytes;
  }

  /**
   * Outside a pass, what an event changes and nothing else: a stream appears by its first use within the limit or by
   * credit for it; its bytes grow by an accepted write alone; only an accepted end finishes it; only STOP_SENDING for
   * a known stream stops it; and its limit follows the largest grant.
   */
  lemma EventOnStream(f: Flow, e: Event, id: nat)
    requires f.Valid() && !e.Pass?
    ensures StreamFollows(f, e, id, Step(f, e).0) && Step(f, e).1 == []
  {
    hide Flow.Valid, StreamFollows;
    if e.Writing? {
      WriteOnStream(f, e.id, e.data, id);
    } else if e.Ending? {
      EndOnStream(f, e.id, id);
    } else if e.Confirmed? || e.Missed? {
      AnswerOnStream(f, e, id);
    } else if e.Halted? {
      StopOnStream(f, e.stream, e.code, id);
    } else {
      GrantOnStream(f, e, id);
    }
  }

  /** What an answer from the peer cannot change in a sender. */
  lemma AnswersKeep(s: Sender, r: SendRange)
    ensures var t := OnAcked(s, r); t == s.(lost := t.lost, acked := t.acked, finAcked := t.finAcked)
    ensures var t := OnLost(s, r); t == s.(lost := t.lost, finSent := t.finSent)
  {
  }

  /** Outside a pass, what an event changes on the connection's side. */
  lemma EventOnLimits(f: Flow, e: Event)
    requires f.Valid() && !e.Pass?
    ensures var g := Step(f, e).0;
            var refused := (e.Writing? || e.Ending?) && !Usable(f, e.id);
            var bidi, uni := e.StreamsGrant? && e.d == Bidirectional, e.StreamsGrant? && e.d == Unidirectional;
            && g.initialMaxData == f.initialMaxData && g.connectionSent == f.connectionSent
            && g.connectionMax == (if e.DataGrant? && f.connectionMax < e.limit then e.limit else f.connectionMax)
            && g.bidiLimit == (if bidi && f.bidiLimit < e.limit then e.limit else f.bidiLimit)
            && g.uniLimit == (if uni && f.uniLimit < e.limit then e.limit else f.uniLimit)
            && (g.bidiBlocked <==> f.bidiBlocked || (refused && e.id % 4 < 2))
            && (g.uniBlocked <==> f.uniBlocked || (refused && 2 <= e.id % 4))
  {
    hide Flow.Valid, OnAcked, OnLost;
    if e.Writing? || e.Ending? {
      UsableExactly(f, e.id);
      DirectionExactly(e.id);
    }
  }

  // ---------------------------------------------------------------- a whole pass

  /** What the services amount to once the streams with nothing to send are dropped. */
  ghost function Given(ws: seq<Service>): seq<Service> {
    if ws == [] then []
    else Given(ws[..|ws| - 1]) + if ws[|ws| - 1] == Nothing then [] else [ws[|ws| - 1]]
  }

  /** Each stream is served on the state the one before it left. */
  ghost predicate InTurn(flows: seq<Flow>, ids: seq<nat>, ws: seq<Service>, maxSize: nat) {
    && |flows| == |ws| + 1 && |ws| <= |ids|
    && (forall i | 0 <= i < |flows| :: flows[i].Valid())
    && forall i | 0 <= i < |ws| :: Serve(flows[i], ids[i], maxSize) == (flows[i + 1], ws[i])
  }

  /** A pass goes on while there is room and credit, and stops for nothing else but the end of the list. */
  ghost predicate IsPass(flows: seq<Flow>, ids: seq<nat>, ws: seq<Service>, room: nat, maxSize: nat) {
    && InTurn(flows, ids, ws, maxSize)
    && (forall i | 0 <= i < |ws| :: |Given(ws[..i])| < room)
    && (forall i | 0 <= i < |ws| - 1 :: !ws[i].ConnectionBlocked?)
    && (|ws| == |ids| || |Given(ws)| == room || (ws != [] && ws[|ws| - 1].ConnectionBlocked?))
  }

  lemma GivenNothing(ws: seq<Service>)
    requires ws == []
    ensures Given(ws) == []
  {
  }

  lemma GivenOne(w: Service)
    requires w != Nothing
    ensures Given([w]) == [w]
  {
    assert [w][..0] == [];
  }

  lemma {:induction false} GivenFirst(w: Service, ws: seq<Service>)
    ensures Given([w] + ws) == (if w == Nothing then [] else [w]) + Given(ws)
  {
    if ws == [] {
      assert [w] + ws == [w] && [w][..0] == [];
    } else {
      var n := |ws| - 1;
      GivenFirst(w, ws[..n]);
      assert ([w] + ws)[..n + 1] == [w] + ws[..n];
    }
  }

  /** There is such a course of services, and it ends in the state and the services of `ServeAll`. */
  lemma {:induction false} PassHasACourse(f: Flow, ids: seq<nat>, room: nat, maxSize: nat)
    returns (flows: seq<Flow>, ws: seq<Service>)
    requires f.Valid()
    ensures IsPass(flows, ids, ws, room, maxSize) && flows[0] == f
    ensures ServeAll(f, ids, room, maxSize) == (flows[|ws|], Given(ws))
    decreases ids
  {
    hide Serve, Flow.Valid, Served, ServeAll, Given;
    GivenNothing([]);
    if ids == [] || room == 0 {
      ServeAllEnds(f, ids, room, maxSize);
      flows, ws := [f], [];
    } else {
      ServeAllStep(f, ids, room, maxSize);
      var (g, v) := Serve(f, ids[0], maxSize);
      if v.ConnectionBlocked? {
        flows, ws := [f, g], [v];
        GivenOne(v);
        GivenNothing([v][..0]);
      } else {
        var left := if v == Nothing then room else room - 1;
        flows, ws := PassHasACourse(g, ids[1..], left, maxSize);
        Prepended(f, v, flows, ids, ws, room, maxSize);
        GivenFirst(v, ws);
        assert ([f] + flows)[|[v] + ws|] == flows[|ws|];
        assert [] + Given(ws) == Given(ws);
        flows, ws := [f] + flows, [v] + ws;
      }
    }
  }

  lemma Prepended(f: Flow, v: Service, flows: seq<Flow>, ids: seq<nat>, ws: seq<Service>, room: nat, maxSize: nat)
    requires f.Valid() && ids != [] && room != 0 && flows != [] && !v.ConnectionBlocked?
    requires Serve(f, ids[0], maxSize) == (flows[0], v)
    requires IsPass(flows, ids[1..], ws, if v == Nothing then room else room - 1, maxSize)
    ensures IsPass([f] + flows, ids, [v] + ws, room, maxSize)
  {
    hide Serve, Flow.Valid, Given;
    GivenFirst(v, ws);
    forall i | 0 <= i < |[v] + ws|
      ensures |Given(([v] + ws)[..i])| < room
    {
      if i == 0 {
        GivenNothing(([v] + ws)[..0]);
      } else {
        assert ([v] + ws)[..i] == [v] + ws[..i - 1];
        GivenFirst(v, ws[..i - 1]);
      }
    }
  }

  /** Two courses from one state are the same. */
  lemma {:induction false} TurnsAgree(
    flows: seq<Flow>, ws: seq<Service>, flows': seq<Flow>, ws': seq<Service>, ids: seq<nat>, maxSize: nat, n: nat)
    requires InTurn(flows, ids, ws, maxSize) && InTurn(flows', ids, ws', maxSize) && flows[0] == flows'[0]
    requires n <= |ws| && n <= |ws'|
    ensures ws[..n] == ws'[..n] && flows[n] == flows'[n]
    decreases n
  {
    hide Serve, Flow.Valid;
    if n != 0 {
      TurnsAgree(flows, ws, flows', ws', ids, maxSize, n - 1);
      assert Serve(flows[n - 1], ids[n - 1], maxSize) == (flows[n - 1 + 1], ws[n - 1]);
      assert Serve(flows'[n - 1], ids[n - 1], maxSize) == (flows'[n - 1 + 1], ws'[n - 1]);
      assert ws[..n] == ws[..n - 1] + [ws[n - 1]] && ws'[..n] == ws'[..n - 1] + [ws'[n - 1]];
    }
  }

  lemma NoLonger(
    flows: seq<Flow>, ws: seq<Service>, flows': seq<Flow>, ws': seq<Service>, ids: seq<nat>, room: nat, maxSize: nat)
    requires IsPass(flows, ids, ws, room, maxSize) && IsPass(flows', ids, ws', room, maxSize) && flows[0] == flows'[0]
    ensures |ws'| <= |ws|
  {
    hide Serve, Flow.Valid, Given;
    var n := Min(|ws|, |ws'|);
    TurnsAgree(flows, ws, flows', ws', ids, maxSize, n);
    assert n == |ws| ==> ws[..n] == ws;
    assert forall i | 0 <= i < |ws'| :: |Given(ws'[..i])| < room;
    assert 0 < n ==> ws[..n][n - 1] == ws[n - 1] && ws'[..n][n - 1] == ws'[n - 1];
  }

  /**
   * A scheduling pass is exactly the course that serves the streams in order, each on what the one before it left,
   * until the list ends, the room is filled or the connection is out of credit; it hands out every service but the
   * empty ones, in order.
   */
  lemma PassIsExactly(f: Flow, ids: seq<nat>, room: nat, maxSize: nat, g: Flow, vs: seq<Service>)
    requires f.Valid()
    ensures ServeAll(f, ids, room, maxSize) == (g, vs) <==>
            exists flows, ws ::
              IsPass(flows, ids, ws, room, maxSize) && flows[0] == f && flows[|ws|] == g && Given(ws) == vs
  {
    hide Serve, Flow.Valid, ServeAll, Given;
    var flows, ws := PassHasACourse(f, ids, room, maxSize);
    forall flows', ws' | IsPass(flows', ids, ws', room, maxSize) && flows'[0] == f
      ensures flows'[|ws'|] == flows[|ws|] && ws' == ws
    {
      NoLonger(flows, ws, flows', ws', ids, room, maxSize);
      NoLonger(flows', ws', flows, ws, ids, room, maxSize);
      TurnsAgree(flows, ws, flows', ws', ids, maxSize, |ws|);
      assert ws[..|ws|] == ws && ws'[..|ws|] == ws';
    }
  }

  /** What a service looks like on the wire. */
  ghost predicate Shows(f: Frame, v: Service) {
    match v
    case Nothing => false
    case Emitted(e) => f == Stream(e.frame)
    case StreamBlocked(id, limit) => f == StreamDataBlocked(id, limit)
    case ConnectionBlocked(limit) => f == DataBlocked(limit)
  }

  lemma {:induction false} FramesShow(vs: seq<Service>)
    requires forall i | 0 <= i < |vs| :: vs[i] != Nothing
    ensures |AsFrames(vs)| == |vs| && forall i | 0 <= i < |vs| :: Shows(AsFrames(vs)[i], vs[i])
  {
    if vs != [] {
      FramesShow(vs[..|vs| - 1]);
    }
  }

  lemma {:induction false} GivenIsSomething(ws: seq<Service>)
    ensures forall i | 0 <= i < |Given(ws)| :: Given(ws)[i] != Nothing
  {
    if ws != [] {
      GivenIsSomething(ws[..|ws| - 1]);
    }
  }

  /**
   * The frames of one scheduling call: those of the pass, in order, and then STREAMS_BLOCKED with the current limit for
   * each blocked direction, bidirectional first, where the call still has room.
   */
  lemma ScheduledExactly(f: Flow, ids: seq<nat>, maxFrames: nat, maxSize: nat)
    requires f.Valid()
    ensures var (g, frames) := Schedule(f, ids, maxFrames, maxSize);
            var (h, vs) := ServeAll(f, ids, maxFrames, maxSize);
            var n := |vs|;
            var bidi := n < maxFrames && f.bidiBlocked;
            var uni := (if bidi then n + 1 else n) < maxFrames && f.uniBlocked;
            && g == h && n <= |frames| <= maxFrames
            && (forall i | 0 <= i < n :: Shows(frames[i], vs[i]))
            && (n < |frames| <==> bidi || uni) && (n + 1 < |frames| <==> bidi && uni)
            && (bidi ==> frames[n] == StreamsBlocked(Bidirectional, f.bidiLimit))
            && (uni ==> frames[|frames| - 1] == StreamsBlocked(Unidirectional, f.uniLimit))
            && |frames| <= n + 2
  {
    hide ServeAll, Serve, Flow.Valid, AsFrames;
    var (g, vs) := ServeAll(f, ids, maxFrames, maxSize);
    var flows, ws := PassHasACourse(f, ids, maxFrames, maxSize);
    GivenIsSomething(ws);
    FramesShow(vs);
    CourseFitsRoom(flows, ids, ws, maxFrames, maxSize);
    PassKeepsLimits(f, ids, maxFrames, maxSize, 0);
  }

  lemma CourseFitsRoom(flows: seq<Flow>, ids: seq<nat>, ws: seq<Service>, room: nat, maxSize: nat)
    requires IsPass(flows, ids, ws, room, maxSize)
    ensures |Given(ws)| <= room
  {
    hide Serve, Flow.Valid;
    if ws != [] {
      assert |Given(ws[..|ws| - 1])| < room;
    }
  }
}
