/**
 * Connection flow control (connection.hpp) over the set of sending streams (stream.hpp): which frames a scheduling
 * pass hands out, and that the credit they use is exactly what the streams have sent for the first time.
 */
module FlowControl {
  import opened Common
  import opened Frames
  import opened StreamSend
  import SendLedger

  datatype Flow = Flow(
    streams: map<nat, Sender>, initialMaxData: nat,
    bidiLimit: nat, uniLimit: nat, bidiBlocked: bool, uniBlocked: bool,
    connectionMax: nat, connectionSent: nat)
  {
    ghost predicate Valid() {
      && StreamsValid(streams)
      && initialMaxData <= U64_MAX
      && connectionSent == SumSent(streams) <= connectionMax <= U64_MAX
    }
  }

  ghost predicate StreamsValid(streams: map<nat, Sender>) {
    forall id | id in streams :: id <= U64_MAX && streams[id].Valid() && streams[id].streamId == id
  }

  function NewFlow(initialMaxData: nat, bidiLimit: nat, uniLimit: nat, connectionMax: nat): Flow {
    Flow(map[], initialMaxData, bidiLimit, uniLimit, false, false, connectionMax, 0)
  }

  // ---------------------------------------------------------------- the sum of what the streams have sent

  ghost function SentBy(streams: map<nat, Sender>, id: nat): nat {
    if id in streams then streams[id].nextUnsent else 0
  }

  /** Over the stream ids below `bound`. */
  ghost function SumBelow(streams: map<nat, Sender>, bound: nat): nat {
    if bound == 0 then 0 else SumBelow(streams, bound - 1) + SentBy(streams, bound - 1)
  }

  ghost function SumSent(streams: map<nat, Sender>): nat {
    SumBelow(streams, U64_MAX + 1)
  }

  lemma {:induction false} SumBelowUpdated(streams: map<nat, Sender>, id: nat, s: Sender, bound: nat)
    ensures SumBelow(streams[id := s], bound) ==
            SumBelow(streams, bound) + if id < bound then s.nextUnsent - SentBy(streams, id) else 0
  {
    if bound != 0 {
      SumBelowUpdated(streams, id, s, bound - 1);
    }
  }

  lemma SumUpdated(streams: map<nat, Sender>, id: nat, s: Sender)
    requires id <= U64_MAX
    ensures SumSent(streams[id := s]) == SumSent(streams) + s.nextUnsent - SentBy(streams, id)
  {
    SumBelowUpdated(streams, id, s, U64_MAX + 1);
  }

  lemma {:induction false} SumOfNothing(bound: nat)
    ensures SumBelow(map[], bound) == 0
  {
    if bound != 0 {
      SumOfNothing(bound - 1);
    }
  }

  // ---------------------------------------------------------------- scheduling

  /** What a pass does for one stream. */
  datatype Service =
    | Nothing
    | Emitted(e: Emission)
    | StreamBlocked(streamId: nat, limit: nat)
    | ConnectionBlocked(limit: nat)
  {
    function AsFrame(): Frame
      requires !Nothing?
    {
      match this
      case Emitted(e) => Stream(e.frame)
      case StreamBlocked(id, limit) => StreamDataBlocked(id, limit)
      case ConnectionBlocked(limit) => DataBlocked(limit)
    }

    /** The connection credit it uses. */
    function Cost(): nat {
      if Emitted? && !e.retransmission then |e.frame.data| else 0
    }
  }

  function Serve(f: Flow, id: nat, maxSize: nat): (Flow, Service)
    requires f.Valid()
  {
    var known := id in f.streams;
    var again := known && f.streams[id].HasRetransmittable();
    var credit := f.connectionMax - f.connectionSent;
    if credit == 0 && !again then
      (f, if known && f.streams[id].HasUnsent() then ConnectionBlocked(f.connectionMax) else Nothing)
    else if !known then
      (f, Nothing)
    else
      Popped(f, id, if again then maxSize else Min(maxSize, credit))
  }

  /** The stream's next frame, paid for from the connection credit when it is new data. */
  function Popped(f: Flow, id: nat, limit: nat): (Flow, Service)
    requires id in f.streams && f.streams[id].Valid()
  {
    var (s, e) := Pop(f.streams[id], limit);
    var v :=
      if e.Some? then Emitted(e.value) else if s.Blocked() then StreamBlocked(id, s.maxData) else Nothing;
    (f.(streams := f.streams[id := s], connectionSent := f.connectionSent + v.Cost()), v)
  }

  /** A stream with lost data is popped for lost data only, however many acknowledged ranges lie in front. */
  lemma RetransmissionComesFirst(s: Sender, max: nat)
    requires s.Valid()
    ensures var (t, e) := Pop(s, max);
            && (s.HasRetransmittable() ==> t.nextUnsent == s.nextUnsent && (e.Some? ==> e.value.retransmission))
            && (!s.HasRetransmittable() && e.Some? ==> !e.value.retransmission)
  {
    var k := SkipAckedIsSuffix(s.acked, s.lost);
    var kept := SkipAcked(s.acked, s.lost);
    SkippedIsUncovered(s.acked, s.lost);
    if s.HasRetransmittable() {
      assert kept != [];
    }
  }

  lemma SkippedIsUncovered(acked: seq<SendRange>, lost: seq<SendRange>)
    ensures SkipAcked(acked, lost) != [] ==> !CoveredBy(acked, SkipAcked(acked, lost)[0])
    ensures SkipAcked(acked, lost) == [] ==> forall i | 0 <= i < |lost| :: CoveredBy(acked, lost[i])
  {
    if lost != [] && CoveredBy(acked, lost[0]) {
      SkippedIsUncovered(acked, lost[1..]);
    }
  }

  /** New data is the next unsent bytes, at most `max` of them; everything else leaves the offset alone. */
  lemma PopAdvances(s: Sender, max: nat)
    requires s.Valid()
    ensures var (t, e) := Pop(s, max);
            && t.Valid() && t == s.(lost := t.lost, nextUnsent := t.nextUnsent, finSent := t.finSent)
            && s.nextUnsent <= t.nextUnsent <= s.nextUnsent + max
            && (e.None? || e.value.retransmission ==> t.nextUnsent == s.nextUnsent)
            && (e.Some? && !e.value.retransmission ==> e.value.frame.data == s.bytes[s.nextUnsent..t.nextUnsent])
            && (e.Some? ==> e.value.frame.streamId == s.streamId)
  {
    SendLedger.PopIsValid(s, max);
    KeptIsValid(s);
    hide SkipAcked;
  }

  lemma CreditIsThere(f: Flow, id: nat)
    requires f.Valid()
    ensures f.connectionSent <= f.connectionMax && (id in f.streams ==> f.streams[id].Valid())
  {
  }

  /** A stream that sent `cost` new bytes, and a connection that counted them. */
  lemma CreditMoves(f: Flow, id: nat, t: Sender, cost: nat)
    requires f.Valid() && id in f.streams && t.Valid() && t.streamId == id
    requires t.nextUnsent == f.streams[id].nextUnsent + cost && f.connectionSent + cost <= f.connectionMax
    ensures f.(streams := f.streams[id := t], connectionSent := f.connectionSent + cost).Valid()
  {
    hide SumSent, Sender.Valid;
    SumUpdated(f.streams, id, t);
  }

  /** What a service of stream `id` may change in its sender. */
  ghost predicate Advanced(s: Sender, t: Sender, v: Service) {
    && t == s.(lost := t.lost, nextUnsent := t.nextUnsent, finSent := t.finSent)
    && t.nextUnsent == s.nextUnsent + v.Cost() <= |s.bytes|
    && (v.Emitted? ==> v.e.frame.streamId == s.streamId)
    && (0 < v.Cost() ==> v.e.frame.data == s.bytes[s.nextUnsent..t.nextUnsent])
  }

  /** Only stream `id` moves, and the connection counts exactly what it newly sent. */
  ghost predicate Served(f: Flow, id: nat, g: Flow, v: Service) {
    && g == f.(streams := g.streams, connectionSent := f.connectionSent + v.Cost())
    && g.streams.Keys == f.streams.Keys
    && (forall k | k in f.streams && k != id :: g.streams[k] == f.streams[k])
    && (if id in f.streams then Advanced(f.streams[id], g.streams[id], v) else v.Nothing?)
  }

  /** A pop under the limit a service gives it stays within the connection credit. */
  lemma PopWithinCredit(s: Sender, maxSize: nat, credit: nat)
    requires s.Valid()
    ensures var (t, e) := Pop(s, if s.HasRetransmittable() then maxSize else Min(maxSize, credit));
            var v := if e.Some? then Emitted(e.value) else Nothing;
            t.Valid() && Advanced(s, t, v) && v.Cost() <= credit
  {
    var limit := if s.HasRetransmittable() then maxSize else Min(maxSize, credit);
    RetransmissionComesFirst(s, limit);
    PopAdvances(s, limit);
    hide Pop;
  }

  lemma ServedByPop(f: Flow, id: nat, t: Sender, v: Service)
    requires f.Valid() && id in f.streams && t.Valid() && Advanced(f.streams[id], t, v)
    requires f.connectionSent + v.Cost() <= f.connectionMax
    ensures var g := f.(streams := f.streams[id := t], connectionSent := f.connectionSent + v.Cost());
            g.Valid() && Served(f, id, g, v)
  {
    CreditMoves(f, id, t, v.Cost());
    hide Advanced, Flow.Valid, Sender.Valid;
  }

  /**
   * One service: the credit used is what the stream newly sent, it is within the credit left, and nothing else changes.
   */
  lemma ServeConserves(f: Flow, id: nat, maxSize: nat)
    requires f.Valid()
    ensures var (g, v) := Serve(f, id, maxSize); g.Valid() && Served(f, id, g, v)
  {
    hide Flow.Valid, Pop, Sender.Valid, Sender.HasRetransmittable;
    CreditIsThere(f, id);
    if id in f.streams {
      var s, credit := f.streams[id], f.connectionMax - f.connectionSent;
      var limit := if s.HasRetransmittable() then maxSize else Min(maxSize, credit);
      PopWithinCredit(s, maxSize, credit);
      ServedByPop(f, id, Pop(s, limit).0, Popped(f, id, limit).1);
    }
  }

  /**
   * Blocked frames tell the truth: the connection has no credit and the stream has data, or the stream has no credit.
   */
  lemma BlockedIsTrue(f: Flow, id: nat, maxSize: nat)
    requires f.Valid()
    ensures var (g, v) := Serve(f, id, maxSize);
            && (v.ConnectionBlocked? ==>
                  && g == f && v.limit == f.connectionMax == f.connectionSent
                  && id in f.streams && f.streams[id].HasUnsent())
            && (v.StreamBlocked? ==>
                  v.streamId == id && id in f.streams && f.streams[id].Blocked()
                  && v.limit == f.streams[id].maxData == f.streams[id].nextUnsent)
  {
    ServeConserves(f, id, maxSize);
    if id in f.streams {
      var s := f.streams[id];
      PopAdvances(s, if s.HasRetransmittable() then maxSize else Min(maxSize, f.connectionMax - f.connectionSent));
      hide Pop;
    }
  }

  /** The stream has data to send again; `k` is the lost range that comes first. */
  lemma LostDataExactly(s: Sender) returns (k: nat)
    ensures s.stop.None? && (exists i :: FirstLost(s, i)) <==> s.HasRetransmittable()
    ensures s.HasRetransmittable() ==> FirstLost(s, k)
  {
    k := 0;
    if s.HasRetransmittable() {
      k := LostIsFound(s);
    }
    if i: nat :| FirstLost(s, i) {
      InOneExactly(s.acked, s.lost[i]);
      assert !s.IsAcked(s.lost[i]);
    }
  }

  /** What a stream is served if it has lost data to send again: that data, unless no size is allowed. */
  lemma ServesLostData(f: Flow, id: nat, maxSize: nat, k: nat)
    requires f.Valid() && id in f.streams && f.streams[id].stop.None? && FirstLost(f.streams[id], k)
    ensures var s, (g, v) := f.streams[id], Serve(f, id, maxSize);
            && (v.Emitted? <==> 0 < maxSize || s.lost[k].length == 0)
            && (v.StreamBlocked? <==>
                  maxSize == 0 && 0 < s.lost[k].length && s.nextUnsent < |s.bytes| && s.maxData <= s.nextUnsent)
            && !v.ConnectionBlocked?
            && (v.Emitted? ==>
                  && v.e.retransmission && v.Cost() == 0
                  && |v.e.frame.data| == if s.lost[k].length <= maxSize then s.lost[k].length else maxSize)
  {
    hide SumSent, Pop;
    var s := f.streams[id];
    var n := LostDataExactly(s);
    assert s.HasRetransmittable();
    PopSendsLostData(s, k, maxSize);
    assert Serve(f, id, maxSize) == Popped(f, id, maxSize);
    assert Pop(s, maxSize).1.Some? <==> 0 < maxSize || s.lost[k].length == 0;
    assert Popped(f, id, maxSize).1.Emitted? <==> Pop(s, maxSize).1.Some?;
  }

  /**
   * What a stream is served otherwise: DATA_BLOCKED exactly if it has data and the connection has no credit,
   * STREAM_DATA_BLOCKED exactly if the connection has some and the stream's own limit is reached, a frame exactly if
   * there is data that both limits allow or a FIN, and then as much as size, credit and data allow.
   */
  lemma ServesNewData(f: Flow, id: nat, maxSize: nat)
    requires f.Valid() && id in f.streams && !(f.streams[id].stop.None? && exists k :: FirstLost(f.streams[id], k))
    ensures var s, (g, v) := f.streams[id], Serve(f, id, maxSize);
            var waits := s.stop.None? && s.nextUnsent < |s.bytes|;
            var credit := f.connectionMax - f.connectionSent;
            var fin := s.stop.None? && s.nextUnsent == |s.bytes| && s.finished && !s.finSent && !s.finAcked;
            && (v.ConnectionBlocked? <==> waits && credit == 0)
            && (v.ConnectionBlocked? ==> v.limit == f.connectionMax)
            && (v.StreamBlocked? <==> waits && 0 < credit && s.maxData == s.nextUnsent)
            && (v.StreamBlocked? ==> v.streamId == id && v.limit == s.maxData)
            && (v.Emitted? <==> 0 < credit && ((waits && s.nextUnsent < s.maxData && 0 < maxSize) || fin))
            && (v.Emitted? ==>
                  && !v.e.retransmission
                  && v.Cost() == |v.e.frame.data| == g.streams[id].nextUnsent - s.nextUnsent)
            && (v.Emitted? && waits ==>
                  || v.Cost() == maxSize || v.Cost() == credit
                  || g.streams[id].nextUnsent == |s.bytes| || g.streams[id].nextUnsent == s.maxData)
  {
    hide SumSent, Pop;
    var s, credit := f.streams[id], f.connectionMax - f.connectionSent;
    var k := LostDataExactly(s);
    if s.stop.Some? {
      PopAfterStop(s, Min(maxSize, credit));
    } else {
      assert !s.HasRetransmittable();
      var limit := Min(maxSize, credit);
      PopSendsNewData(s, limit);
      if 0 < credit {
        assert Serve(f, id, maxSize) == Popped(f, id, limit);
        assert Popped(f, id, limit).1.Emitted? <==> Pop(s, limit).1.Some?;
      }
    }
  }

  /** An unknown stream is served nothing. */
  lemma ServesUnknown(f: Flow, id: nat, maxSize: nat)
    requires f.Valid() && id !in f.streams
    ensures Serve(f, id, maxSize) == (f, Nothing)
  {
  }

  /** Serves the streams in order until the room or the connection credit is used up. */
  function ServeAll(f: Flow, ids: seq<nat>, room: nat, maxSize: nat): (r: (Flow, seq<Service>))
    requires f.Valid()
    ensures r.0.Valid()
    decreases ids
  {
    if ids == [] || room == 0 then (f, []) else
      ServeConserves(f, ids[0], maxSize);
      var (g, v) := Serve(f, ids[0], maxSize);
      if v.ConnectionBlocked? then (g, [v])
      else if v.Nothing? then ServeAll(g, ids[1..], room, maxSize)
      else
        var (h, vs) := ServeAll(g, ids[1..], room - 1, maxSize);
        (h, [v] + vs)
  }

  lemma ServeAllEnds(f: Flow, ids: seq<nat>, room: nat, maxSize: nat)
    requires f.Valid() && (ids == [] || room == 0)
    ensures ServeAll(f, ids, room, maxSize) == (f, [])
  {
  }

  lemma ServeAllStep(f: Flow, ids: seq<nat>, room: nat, maxSize: nat)
    requires f.Valid() && ids != [] && room != 0
    ensures var (g, v) := Serve(f, ids[0], maxSize);
            && g.Valid() && Served(f, ids[0], g, v)
            && ServeAll(f, ids, room, maxSize) ==
               if v.ConnectionBlocked? then (g, [v])
               else if v.Nothing? then ServeAll(g, ids[1..], room, maxSize)
               else (ServeAll(g, ids[1..], room - 1, maxSize).0, [v] + ServeAll(g, ids[1..], room - 1, maxSize).1)
  {
    hide Serve, Served, Flow.Valid;
    ServeConserves(f, ids[0], maxSize);
  }

  function AsFrames(vs: seq<Service>): seq<Frame> {
    if vs == [] then []
    else AsFrames(vs[..|vs| - 1]) + if vs[|vs| - 1].Nothing? then [] else [vs[|vs| - 1].AsFrame()]
  }

  /** STREAMS_BLOCKED frames go where there is room left. */
  function StreamsBlockedFrames(f: Flow, room: nat): seq<Frame> {
    var bidi := if 0 < room && f.bidiBlocked then [StreamsBlocked(Bidirectional, f.bidiLimit)] else [];
    bidi + if |bidi| < room && f.uniBlocked then [StreamsBlocked(Unidirectional, f.uniLimit)] else []
  }

  // ---------------------------------------------------------------- what has been sent, stream by stream

  /** The data of the first transmissions of one stream, in order. */
  ghost function FirstSent(vs: seq<Service>, id: nat): seq<byte> {
    if vs == [] then [] else
      var v := vs[|vs| - 1];
      FirstSent(vs[..|vs| - 1], id) + if 0 < v.Cost() && v.e.frame.streamId == id then v.e.frame.data else []
  }

  ghost function Spent(vs: seq<Service>): nat {
    if vs == [] then 0 else Spent(vs[..|vs| - 1]) + vs[|vs| - 1].Cost()
  }

  /**
   * The history of services against the state: each stream's first transmissions, joined, are the bytes it has
   * sent so far, and the credit spent on them is the connection's count.
   */
  ghost predicate Faithful(f: Flow, vs: seq<Service>) {
    (forall id :: StreamFaithful(f, vs, id)) && Spent(vs) == f.connectionSent
  }

  ghost predicate StreamFaithful(f: Flow, vs: seq<Service>, id: nat) {
    if id !in f.streams then FirstSent(vs, id) == [] else
      var s := f.streams[id];
      s.nextUnsent <= |s.bytes| && FirstSent(vs, id) == s.bytes[..s.nextUnsent]
  }

  lemma HistoryGrows(vs: seq<Service>, v: Service, id: nat)
    ensures FirstSent(vs + [v], id) ==
            FirstSent(vs, id) + if 0 < v.Cost() && v.e.frame.streamId == id then v.e.frame.data else []
    ensures Spent(vs + [v]) == Spent(vs) + v.Cost()
  {
    assert (vs + [v])[..|vs|] == vs;
  }

  lemma ServedStreamIsFaithful(f: Flow, id: nat, g: Flow, v: Service, vs: seq<Service>, k: nat)
    requires StreamsValid(f.streams) && Served(f, id, g, v) && StreamFaithful(f, vs, k)
    ensures StreamFaithful(g, vs + [v], k)
  {
    hide FirstSent, Sender.Valid;
    HistoryGrows(vs, v, k);
    if k == id && k in f.streams {
      var s, t := f.streams[k], g.streams[k];
      assert s.bytes[..t.nextUnsent] == s.bytes[..s.nextUnsent] + s.bytes[s.nextUnsent..t.nextUnsent];
    }
  }

  lemma ServeIsFaithful(f: Flow, id: nat, maxSize: nat, vs: seq<Service>)
    requires f.Valid() && Faithful(f, vs)
    ensures var (g, v) := Serve(f, id, maxSize); Faithful(g, vs + [v])
  {
    var (g, v) := Serve(f, id, maxSize);
    ServeConserves(f, id, maxSize);
    hide Serve, Flow.Valid;
    HistoryGrows(vs, v, id);
    forall k
      ensures StreamFaithful(g, vs + [v], k)
    {
      ServedStreamIsFaithful(f, id, g, v, vs, k);
    }
  }

  lemma NothingIsHistory(f: Flow, vs: seq<Service>)
    requires Faithful(f, vs + [Nothing])
    ensures Faithful(f, vs)
  {
    HistoryGrows(vs, Nothing, 0);
    forall id
      ensures StreamFaithful(f, vs, id)
    {
      assert StreamFaithful(f, vs + [Nothing], id);
      HistoryGrows(vs, Nothing, id);
    }
  }

  /** A whole pass keeps the accounts: it appends its services to the history and stays within the room. */
  lemma {:induction false} PassIsFaithful(f: Flow, ids: seq<nat>, room: nat, maxSize: nat, vs: seq<Service>)
    requires f.Valid() && Faithful(f, vs)
    ensures var (g, added) := ServeAll(f, ids, room, maxSize);
            Faithful(g, vs + added) && |added| <= room
    decreases ids
  {
    hide ServeAll, Serve, Faithful, Flow.Valid, Served;
    if ids == [] || room == 0 {
      ServeAllEnds(f, ids, room, maxSize);
      assert vs + [] == vs;
    } else {
      var (g, v) := Serve(f, ids[0], maxSize);
      ServeAllStep(f, ids, room, maxSize);
      ServeIsFaithful(f, ids[0], maxSize, vs);
      if v.ConnectionBlocked? {
      } else if v.Nothing? {
        NothingIsHistory(g, vs);
        PassIsFaithful(g, ids[1..], room, maxSize, vs);
      } else {
        PassIsFaithful(g, ids[1..], room - 1, maxSize, vs + [v]);
        var rest := ServeAll(g, ids[1..], room - 1, maxSize).1;
        assert vs + [v] + rest == vs + ([v] + rest);
      }
    }
  }

  // ---------------------------------------------------------------- the other operations

  function DirectionOf(id: nat): Direction {
    if id / 2 % 2 == 0 then Bidirectional else Unidirectional
  }

  function LimitFor(f: Flow, d: Direction): nat {
    if d.Bidirectional? then f.bidiLimit else f.uniLimit
  }

  function MarkBlocked(f: Flow, d: Direction): Flow {
    if d.Bidirectional? then f.(bidiBlocked := true) else f.(uniBlocked := true)
  }

  /** The stream's sender, made on first use. */
  function StateFor(f: Flow, id: nat): Sender {
    if id in f.streams then f.streams[id] else NewSender(id, f.initialMaxData)
  }

  predicate MayOpen(f: Flow, id: nat) {
    id in f.streams || id / 4 < LimitFor(f, DirectionOf(id))
  }

  /** Data can be written: the stream is or may be opened, and takes it. */
  predicate Accepts(f: Flow, id: nat, data: seq<byte>) {
    MayOpen(f, id) && CanAppend(StateFor(f, id), data)
  }

  function Put(f: Flow, id: nat, s: Sender): Flow {
    f.(streams := f.streams[id := s])
  }

  function Write(f: Flow, id: nat, data: seq<byte>): Flow {
    if MayOpen(f, id) then Put(f, id, Append(StateFor(f, id), data)) else MarkBlocked(f, DirectionOf(id))
  }

  function End(f: Flow, id: nat): Flow {
    if MayOpen(f, id) then Put(f, id, Finish(StateFor(f, id))) else MarkBlocked(f, DirectionOf(id))
  }

  function RaiseStreamData(f: Flow, id: nat, limit: nat): Flow {
    Put(f, id, Credit(StateFor(f, id), limit))
  }

  function RaiseData(f: Flow, limit: nat): Flow {
    f.(connectionMax := Max(f.connectionMax, limit))
  }

  function RaiseStreams(f: Flow, d: Direction, limit: nat): Flow {
    if d.Bidirectional? then f.(bidiLimit := Max(f.bidiLimit, limit)) else f.(uniLimit := Max(f.uniLimit, limit))
  }

  function Halt(f: Flow, id: nat, code: nat): Flow {
    if id in f.streams then Put(f, id, Stop(f.streams[id], code)) else f
  }

  function Confirm(f: Flow, id: nat, r: SendRange): Flow {
    if id in f.streams then Put(f, id, OnAcked(f.streams[id], r)) else f
  }

  function Miss(f: Flow, id: nat, r: SendRange): Flow {
    if id in f.streams then Put(f, id, OnLost(f.streams[id], r)) else f
  }

  /** Replacing a sender by one that has sent the same and written no less leaves the accounts as they are. */
  lemma PutKeepsAccounts(f: Flow, id: nat, t: Sender, vs: seq<Service>)
    requires f.Valid() && Faithful(f, vs) && id <= U64_MAX
    requires t.Valid() && t.streamId == id && t.nextUnsent == SentBy(f.streams, id) && StateFor(f, id).bytes <= t.bytes
    ensures Put(f, id, t).Valid() && Faithful(Put(f, id, t), vs)
  {
    hide FirstSent, Sender.Valid, Spent;
    SumUpdated(f.streams, id, t);
    hide SumSent;
    var g := Put(f, id, t);
    forall k
      ensures StreamFaithful(g, vs, k)
    {
      assert StreamFaithful(f, vs, k);
      if k == id {
        assert t.nextUnsent <= |t.bytes| by {
          assert t.Valid();
          SenderBounds(t);
        }
        assert t.bytes[..t.nextUnsent] == StateFor(f, id).bytes[..t.nextUnsent] by {
          SenderBounds(StateFor(f, id));
        }
      }
    }
  }

  lemma SenderBounds(s: Sender)
    requires s.Valid() || s == NewSender(s.streamId, s.maxData)
    ensures s.nextUnsent <= |s.bytes|
  {
  }

  lemma StateForIsValid(f: Flow, id: nat)
    requires f.Valid() && id <= U64_MAX
    ensures var s := StateFor(f, id); s.Valid() && s.streamId == id && s.nextUnsent == SentBy(f.streams, id)
  {
  }

  lemma FlagsKeepAccounts(f: Flow, g: Flow, vs: seq<Service>)
    requires f.Valid() && Faithful(f, vs)
    requires g.streams == f.streams && g.initialMaxData == f.initialMaxData && g.connectionSent == f.connectionSent
    requires f.connectionMax <= g.connectionMax <= U64_MAX
    ensures g.Valid() && Faithful(g, vs)
  {
    hide FirstSent;
    forall k
      ensures StreamFaithful(g, vs, k)
    {
      assert StreamFaithful(f, vs, k);
    }
  }

  // ---------------------------------------------------------------- runs

  datatype Event =
    | Writing(id: u64, data: seq<byte>)
    | Ending(id: u64)
    | Pass(ids: seq<nat>, room: nat, maxSize: nat)
    | Confirmed(stream: nat, r: SendRange)
    | Missed(stream: nat, r: SendRange)
    | DataGrant(limit: u64)
    | StreamDataGrant(id: u64, limit: u64)
    | StreamsGrant(d: Direction, limit: u64)
    | Halted(stream: nat, code: nat)

  ghost function Step(f: Flow, e: Event): (Flow, seq<Service>)
    requires f.Valid()
  {
    match e
    case Writing(id, data) => (Write(f, id, data), [])
    case Ending(id) => (End(f, id), [])
    case Pass(ids, room, maxSize) => ServeAll(f, ids, room, maxSize)
    case Confirmed(id, r) => (Confirm(f, id, r), [])
    case Missed(id, r) => (Miss(f, id, r), [])
    case DataGrant(limit) => (RaiseData(f, limit), [])
    case StreamDataGrant(id, limit) => (RaiseStreamData(f, id, limit), [])
    case StreamsGrant(d, limit) => (RaiseStreams(f, d, limit), [])
    case Halted(id, code) => (Halt(f, id, code), [])
  }

  lemma SenderStepsKeepAccounts(f: Flow, id: nat, r: SendRange, code: nat, vs: seq<Service>)
    requires f.Valid() && Faithful(f, vs)
    ensures Confirm(f, id, r).Valid() && Faithful(Confirm(f, id, r), vs)
    ensures Miss(f, id, r).Valid() && Faithful(Miss(f, id, r), vs)
    ensures Halt(f, id, code).Valid() && Faithful(Halt(f, id, code), vs)
  {
    hide Faithful, SumSent;
    if id in f.streams {
      var s := f.streams[id];
      UncoveredIsValid(s, Acknowledged(s, r));
      PutKeepsAccounts(f, id, OnAcked(s, r), vs);
      PutKeepsAccounts(f, id, OnLost(s, r), vs);
      PutKeepsAccounts(f, id, Stop(s, code), vs);
    }
  }

  lemma OpeningStepsKeepAccounts(f: Flow, id: u64, data: seq<byte>, limit: u64, vs: seq<Service>)
    requires f.Valid() && Faithful(f, vs)
    ensures Write(f, id, data).Valid() && Faithful(Write(f, id, data), vs)
    ensures End(f, id).Valid() && Faithful(End(f, id), vs)
    ensures RaiseStreamData(f, id, limit).Valid() && Faithful(RaiseStreamData(f, id, limit), vs)
  {
    hide Faithful, SumSent;
    StateForIsValid(f, id);
    var s := StateFor(f, id);
    PutKeepsAccounts(f, id, Append(s, data), vs);
    PutKeepsAccounts(f, id, Finish(s), vs);
    PutKeepsAccounts(f, id, Credit(s, limit), vs);
    FlagsKeepAccounts(f, MarkBlocked(f, DirectionOf(id)), vs);
  }

  lemma StepKeepsAccounts(f: Flow, e: Event, vs: seq<Service>)
    requires f.Valid() && Faithful(f, vs)
    ensures Step(f, e).0.Valid() && Faithful(Step(f, e).0, vs + Step(f, e).1)
  {
    hide Faithful, Flow.Valid, Write, End, RaiseStreamData, Confirm, Miss, Halt, ServeAll;
    assert vs + [] == vs;
    match e
    case Writing(id, data) => OpeningStepsKeepAccounts(f, id, data, 0, vs);
    case Ending(id) => OpeningStepsKeepAccounts(f, id, [], 0, vs);
    case StreamDataGrant(id, limit) => OpeningStepsKeepAccounts(f, id, [], limit, vs);
    case Confirmed(id, r) => SenderStepsKeepAccounts(f, id, r, 0, vs);
    case Missed(id, r) => SenderStepsKeepAccounts(f, id, r, 0, vs);
    case Halted(id, code) => SenderStepsKeepAccounts(f, id, SendRange(0, 0, false), code, vs);
    case DataGrant(limit) => GrantsKeepAccounts(f, limit, Bidirectional, 0, vs);
    case StreamsGrant(d, limit) => GrantsKeepAccounts(f, 0, d, limit, vs);
    case Pass(ids, room, maxSize) => PassIsFaithful(f, ids, room, maxSize, vs);
  }

  lemma GrantsKeepAccounts(f: Flow, limit: u64, d: Direction, streams: nat, vs: seq<Service>)
    requires f.Valid() && Faithful(f, vs)
    ensures RaiseData(f, limit).Valid() && Faithful(RaiseData(f, limit), vs)
    ensures RaiseStreams(f, d, streams).Valid() && Faithful(RaiseStreams(f, d, streams), vs)
  {
    hide Faithful, SumSent, Sender.Valid;
    FlagsKeepAccounts(f, RaiseData(f, limit), vs);
    FlagsKeepAccounts(f, RaiseStreams(f, d, streams), vs);
  }

  ghost function Run(f: Flow, vs: seq<Service>, es: seq<Event>): (Flow, seq<Service>)
    requires f.Valid() && Faithful(f, vs)
    decreases es
  {
    if es == [] then (f, vs) else
      StepKeepsAccounts(f, es[0], vs);
      var (g, added) := Step(f, es[0]);
      Run(g, vs + added, es[1..])
  }

  // ---------------------------------------------------------------- ending a stream

  /** No stream has been ended. */
  ghost predicate Unfinished(f: Flow) {
    forall id | id in f.streams :: !f.streams[id].finished
  }

  ghost predicate NoFins(vs: seq<Service>) {
    forall i | 0 <= i < |vs| && vs[i].Emitted? :: !vs[i].e.frame.fin
  }

  /** A sender that was not ended has no FIN to send or to send again. */
  lemma PopCarriesNoFin(s: Sender, max: nat)
    requires s.Valid() && !s.finished
    ensures var (t, e) := Pop(s, max); !t.finished && (e.Some? ==> !e.value.frame.fin)
  {
    KeptIsValid(s);
    hide SkipAcked;
  }

  lemma ServeCarriesNoFin(f: Flow, id: nat, maxSize: nat)
    requires f.Valid() && Unfinished(f)
    ensures var (g, v) := Serve(f, id, maxSize); Unfinished(g) && (v.Emitted? ==> !v.e.frame.fin)
  {
    hide Pop, SumSent, Sender.Valid;
    if id in f.streams {
      var s := f.streams[id];
      PopCarriesNoFin(s, if s.HasRetransmittable() then maxSize else Min(maxSize, f.connectionMax - f.connectionSent));
    }
  }

  lemma {:induction false} PassCarriesNoFin(f: Flow, ids: seq<nat>, room: nat, maxSize: nat)
    requires f.Valid() && Unfinished(f)
    ensures var (g, vs) := ServeAll(f, ids, room, maxSize); Unfinished(g) && NoFins(vs)
    decreases ids
  {
    hide Serve, Flow.Valid, Unfinished;
    if ids != [] && room != 0 {
      ServeConserves(f, ids[0], maxSize);
      ServeCarriesNoFin(f, ids[0], maxSize);
      var (g, v) := Serve(f, ids[0], maxSize);
      PassCarriesNoFin(g, ids[1..], room, maxSize);
      PassCarriesNoFin(g, ids[1..], room - 1, maxSize);
    }
  }

  lemma {:induction false} FramesCarryNoFin(vs: seq<Service>)
    requires NoFins(vs)
    ensures forall i | 0 <= i < |AsFrames(vs)| && AsFrames(vs)[i].Stream? :: !AsFrames(vs)[i].stream.fin
  {
    if vs != [] {
      FramesCarryNoFin(vs[..|vs| - 1]);
    }
  }

  /** What is scheduled for streams that were not ended carries no FIN. */
  lemma ScheduleCarriesNoFin(f: Flow, ids: seq<nat>, maxFrames: nat, maxSize: nat)
    requires f.Valid() && Unfinished(f)
    ensures var frames := Schedule(f, ids, maxFrames, maxSize).1;
            forall i | 0 <= i < |frames| && frames[i].Stream? :: !frames[i].stream.fin
  {
    hide ServeAll, AsFrames, Flow.Valid, NoFins, Unfinished;
    PassCarriesNoFin(f, ids, maxFrames, maxSize);
    FramesCarryNoFin(ServeAll(f, ids, maxFrames, maxSize).1);
  }

  lemma StepCarriesNoFin(f: Flow, e: Event)
    requires f.Valid() && Unfinished(f) && !e.Ending?
    ensures Unfinished(Step(f, e).0) && NoFins(Step(f, e).1)
  {
    hide ServeAll, Flow.Valid;
    if e.Pass? {
      PassCarriesNoFin(f, e.ids, e.room, e.maxSize);
    }
  }

  /** Only `finish` ends a stream: over every run without it no stream is ended and no frame carries a FIN. */
  lemma {:induction false} OnlyEndingEnds(f: Flow, vs: seq<Service>, es: seq<Event>)
    requires f.Valid() && Faithful(f, vs) && Unfinished(f) && NoFins(vs)
    requires forall i | 0 <= i < |es| :: !es[i].Ending?
    ensures var (g, ws) := Run(f, vs, es); Unfinished(g) && NoFins(ws)
    decreases es
  {
    hide Step, Flow.Valid, Faithful, Unfinished;
    if es != [] {
      StepKeepsAccounts(f, es[0], vs);
      StepCarriesNoFin(f, es[0]);
      var (g, added) := Step(f, es[0]);
      OnlyEndingEnds(g, vs + added, es[1..]);
    }
  }

  /** All that is left to send is a bare FIN, and the stream's own limit allows it. */
  predicate OnlyFinLeft(s: Sender) {
    && s.stop.None? && s.finished && !s.finSent && !s.finAcked && !s.HasRetransmittable()
    && s.nextUnsent == |s.bytes| <= s.maxData
  }

  /** A bare FIN costs no credit, and is sent if and only if the connection has some. */
  lemma BareFinNeedsCredit(f: Flow, id: nat, maxSize: nat)
    requires f.Valid() && id in f.streams && OnlyFinLeft(f.streams[id])
    ensures Serve(f, id, maxSize).1.Emitted? <==> f.connectionSent < f.connectionMax
    ensures f.connectionSent < f.connectionMax ==>
              Serve(f, id, maxSize).1.e.frame.fin && Serve(f, id, maxSize).1.Cost() == 0
  {
    hide SumSent, SkipAcked;
    NothingIsKept(f.streams[id]);
    KeptIsValid(f.streams[id]);
  }

  /** One byte written, sent with the last of the credit, and the stream ended: the FIN stays behind. */
  lemma FinWaitsForCredit(b: byte, maxSize: nat)
    ensures var start := NewFlow(1, 1, 0, 1);
            && start.Valid() && Faithful(start, [])
            && var f := Run(start, [], [Writing(0, [b]), Pass([0], 1, 1), Ending(0)]).0;
               && f.Valid() && 0 in f.streams && OnlyFinLeft(f.streams[0])
               && f.connectionSent == f.connectionMax && Serve(f, 0, maxSize) == (f, Nothing)
  {
    hide Flow.Valid, Faithful, SumSent, Serve, Step, OnlyFinLeft, Run;
    var start := NewFlow(1, 1, 0, 1);
    var x, y, z := Writing(0, [b]), Pass([0], 1, 1), Ending(0);
    EveryRunStaysWithinCredit(1, 1, 0, 1, [], 0);
    RunFirst(start, [], [x, y, z]);
    var (f, vs) := Step(start, x);
    RunFirst(f, [] + vs, [x, y, z][1..]);
    var (g, ws) := Step(f, y);
    RunFirst(g, [] + vs + ws, [x, y, z][1..][1..]);
    var (h, us) := Step(g, z);
    RunNothing(h, [] + vs + ws + us, [x, y, z][1..][1..][1..]);
    AByteIsWritten(start, b);
    AByteIsSent(f, b);
    TheStreamIsEnded(g, b);
    TheFinStays(h, maxSize);
  }

  /** A flow with one stream, whose one byte is written. */
  ghost predicate OneByte(f: Flow, b: byte, sent: nat, finished: bool) {
    f == NewFlow(1, 1, 0, 1).(
      streams := map[0 := NewSender(0, 1).(bytes := [b], nextUnsent := sent, finished := finished)],
      connectionSent := sent)
  }

  lemma AByteIsWritten(f: Flow, b: byte)
    requires f.Valid() && f == NewFlow(1, 1, 0, 1)
    ensures OneByte(Step(f, Writing(0, [b])).0, b, 0, false)
  {
    hide SumSent;
    var s := NewSender(0, 1);
    assert MayOpen(f, 0) && s.bytes + [b] == [b];
    assert f.streams[0 := s.(bytes := [b])] == map[0 := s.(bytes := [b])];
  }

  lemma AByteIsSent(f: Flow, b: byte)
    requires f.Valid() && OneByte(f, b, 0, false)
    ensures OneByte(Step(f, Pass([0], 1, 1)).0, b, 1, false)
  {
    hide SumSent, Flow.Valid, Serve;
    OneByteIsServed(f, b);
    ServeAllStep(f, [0], 1, 1);
    var g := Serve(f, 0, 1).0;
    ServeAllEnds(g, [0][1..], 0, 1);
  }

  lemma OneByteIsServed(f: Flow, b: byte)
    requires f.Valid() && OneByte(f, b, 0, false)
    ensures Serve(f, 0, 1).1.Emitted? && OneByte(Serve(f, 0, 1).0, b, 1, false)
  {
    hide SumSent;
    var s := f.streams[0];
    assert s.lost == [] && SkipAcked(s.acked, s.lost) == [];
    assert f.streams[0 := s.(nextUnsent := 1)] == map[0 := s.(nextUnsent := 1)];
  }

  lemma TheStreamIsEnded(f: Flow, b: byte)
    requires f.Valid() && OneByte(f, b, 1, false)
    ensures var g := Step(f, Ending(0)).0;
            OneByte(g, b, 1, true) && 0 in g.streams && OnlyFinLeft(g.streams[0])
  {
    hide SumSent, Flow.Valid;
    var s := f.streams[0];
    assert f.streams[0 := s.(finished := true)] == map[0 := s.(finished := true)];
  }

  lemma TheFinStays(f: Flow, maxSize: nat)
    requires f.Valid() && 0 in f.streams && OnlyFinLeft(f.streams[0]) && f.connectionSent == f.connectionMax
    ensures Serve(f, 0, maxSize) == (f, Nothing)
  {
    hide SumSent;
  }

  lemma RunNothing(f: Flow, vs: seq<Service>, es: seq<Event>)
    requires f.Valid() && Faithful(f, vs) && es == []
    ensures Run(f, vs, es) == (f, vs)
  {
  }

  lemma RunFirst(f: Flow, vs: seq<Service>, es: seq<Event>)
    requires f.Valid() && Faithful(f, vs) && es != []
    ensures var (g, added) := Step(f, es[0]);
            g.Valid() && Faithful(g, vs + added) && Run(f, vs, es) == Run(g, vs + added, es[1..])
  {
    hide Step, Flow.Valid, Faithful;
    StepKeepsAccounts(f, es[0], vs);
  }

  /** The largest connection limit a run has been granted. */
  ghost function DataLimit(es: seq<Event>, start: nat): nat {
    if es == [] then start else DataLimit(es[1..], if es[0].DataGrant? then Max(start, es[0].limit) else start)
  }

  /** The largest limit it has been granted for one stream. */
  ghost function StreamLimit(es: seq<Event>, id: nat, start: nat): nat {
    if es == [] then start
    else StreamLimit(es[1..], id, if es[0].StreamDataGrant? && es[0].id == id then Max(start, es[0].limit) else start)
  }

  lemma SenderLimits(s: Sender, data: seq<byte>, r: SendRange)
    ensures Append(s, data).maxData == OnAcked(s, r).maxData == OnLost(s, r).maxData == s.maxData
  {
  }

  lemma LimitsStep(f: Flow, e: Event, id: nat)
    requires f.Valid()
    ensures Step(f, e).0.connectionMax == DataLimit([e], f.connectionMax)
    ensures StateFor(Step(f, e).0, id).maxData == StreamLimit([e], id, StateFor(f, id).maxData)
    ensures Step(f, e).0.initialMaxData == f.initialMaxData
  {
    hide Flow.Valid, ServeAll, Append, OnAcked, OnLost;
    assert [e][1..] == [];
    if e.Pass? {
      PassKeepsLimits(f, e.ids, e.room, e.maxSize, id);
    } else if e.Writing? {
      SenderLimits(StateFor(f, e.id), e.data, SendRange(0, 0, false));
    } else if e.Confirmed? || e.Missed? {
      SenderLimits(StateFor(f, e.stream), [], e.r);
    }
  }

  lemma {:induction false} PassKeepsLimits(f: Flow, ids: seq<nat>, room: nat, maxSize: nat, id: nat)
    requires f.Valid()
    ensures var g := ServeAll(f, ids, room, maxSize).0;
            && g == f.(streams := g.streams, connectionSent := g.connectionSent)
            && StateFor(g, id).maxData == StateFor(f, id).maxData
    decreases ids
  {
    hide ServeAll, Serve, Flow.Valid;
    if ids == [] || room == 0 {
      ServeAllEnds(f, ids, room, maxSize);
    } else {
      var (g, v) := Serve(f, ids[0], maxSize);
      ServeAllStep(f, ids, room, maxSize);
      if v.Nothing? {
        PassKeepsLimits(g, ids[1..], room, maxSize, id);
      } else if !v.ConnectionBlocked? {
        PassKeepsLimits(g, ids[1..], room - 1, maxSize, id);
      }
    }
  }

  lemma {:induction false} RunMeaning(f: Flow, vs: seq<Service>, es: seq<Event>, id: nat)
    requires f.Valid() && Faithful(f, vs)
    ensures var (g, all) := Run(f, vs, es);
            && g.Valid() && Faithful(g, all)
            && g.connectionMax == DataLimit(es, f.connectionMax)
            && StateFor(g, id).maxData == StreamLimit(es, id, StateFor(f, id).maxData)
    decreases es
  {
    if es != [] {
      StepKeepsAccounts(f, es[0], vs);
      LimitsStep(f, es[0], id);
      assert [es[0]][1..] == [];
      var (g, added) := Step(f, es[0]);
      RunMeaning(g, vs + added, es[1..], id);
    }
  }

  lemma {:induction false} RunGrows(f: Flow, vs: seq<Service>, es: seq<Event>, e: Event)
    requires f.Valid() && Faithful(f, vs)
    ensures Run(f, vs, es).0.Valid()
    ensures Run(f, vs, es + [e]).0 == Step(Run(f, vs, es).0, e).0
    ensures Run(f, vs, es + [e]).1 == Run(f, vs, es).1 + Step(Run(f, vs, es).0, e).1
    decreases es
  {
    hide Step, Faithful, Flow.Valid;
    if es == [] {
      assert [] + [e] == [e] && [e][1..] == [];
      StepKeepsAccounts(f, e, vs);
    } else {
      StepKeepsAccounts(f, es[0], vs);
      var (g, added) := Step(f, es[0]);
      RunGrows(g, vs + added, es[1..], e);
      assert (es + [e])[1..] == es[1..] + [e];
    }
  }

  /**
   * Conservation over every run: the data of first transmissions never exceeds the largest connection limit granted,
   * nor, for any one stream, the largest limit granted for it; joined, it is a prefix of what was written to the
   * stream; and the connection's count is the sum over the streams. Retransmissions appear nowhere in this account.
   */
  lemma EveryRunStaysWithinCredit(
    initialMaxData: u64, bidiLimit: nat, uniLimit: nat, connectionMax: u64, es: seq<Event>, id: nat)
    ensures var start := NewFlow(initialMaxData, bidiLimit, uniLimit, connectionMax);
            && start.Valid() && Faithful(start, [])
            && var (f, all) := Run(start, [], es);
               && Spent(all) == f.connectionSent == SumSent(f.streams) <= DataLimit(es, connectionMax)
               && FirstSent(all, id) <= StateFor(f, id).bytes
               && |FirstSent(all, id)| <= StreamLimit(es, id, initialMaxData)
  {
    var start := NewFlow(initialMaxData, bidiLimit, uniLimit, connectionMax);
    SumOfNothing(U64_MAX + 1);
    RunMeaning(start, [], es, id);
    var (f, all) := Run(start, [], es);
    hide Run, SumSent, FirstSent, Spent;
    assert StreamFaithful(f, all, id);
  }

  // ---------------------------------------------------------------- implementation

  /** What one call of `schedule_stream_frames` hands out. */
  function Schedule(f: Flow, ids: seq<nat>, maxFrames: nat, maxSize: nat): (Flow, seq<Frame>)
    requires f.Valid()
  {
    if maxFrames == 0 then (f, []) else
      var (g, vs) := ServeAll(f, ids, maxFrames, maxSize);
      var frames := AsFrames(vs);
      (g, frames + if |frames| < maxFrames then StreamsBlockedFrames(g, maxFrames - |frames|) else [])
  }

  /** To the streams, scheduling is one pass. */
  lemma ScheduleIsAPass(f: Flow, ids: seq<nat>, maxFrames: nat, maxSize: nat)
    requires f.Valid()
    ensures Schedule(f, ids, maxFrames, maxSize).0 == Step(f, Pass(ids, maxFrames, maxSize)).0
  {
  }

  lemma FramesGrow(vs: seq<Service>, v: Service)
    ensures AsFrames(vs + [v]) == AsFrames(vs) + if v.Nothing? then [] else [v.AsFrame()]
  {
    assert (vs + [v])[..|vs|] == vs;
  }

  /** A pass that has handed out `vs` and still has `ids` and `room` ahead reaches `goal`. */
  ghost predicate Ahead(
    last: Flow, all: seq<Service>, vs: seq<Service>, f: Flow, ids: seq<nat>, room: nat, maxSize: nat, done: bool)
    requires f.Valid()
  {
    var (g, rest) := if done then (f, []) else ServeAll(f, ids, room, maxSize);
    last == g && all == vs + rest
  }

  lemma AheadStart(f: Flow, ids: seq<nat>, room: nat, maxSize: nat)
    requires f.Valid()
    ensures var (g, vs) := ServeAll(f, ids, room, maxSize); Ahead(g, vs, [], f, ids, room, maxSize, false)
    ensures AsFrames([]) == []
  {
    hide Flow.Valid, Serve;
    var vs := ServeAll(f, ids, room, maxSize).1;
    assert [] + vs == vs;
  }

  lemma AheadStep(last: Flow, all: seq<Service>, vs: seq<Service>, f: Flow, ids: seq<nat>, room: nat, maxSize: nat)
    requires f.Valid() && ids != [] && room != 0 && Ahead(last, all, vs, f, ids, room, maxSize, false)
    ensures var (g, v) := Serve(f, ids[0], maxSize);
            && g.Valid()
            && Ahead(last, all, if v.Nothing? then vs else vs + [v], g, ids[1..], if v.Nothing? then room else room - 1,
                     maxSize, v.ConnectionBlocked?)
  {
    hide ServeAll, Serve, Served, Flow.Valid;
    ServeAllStep(f, ids, room, maxSize);
    var (g, v) := Serve(f, ids[0], maxSize);
    if v.ConnectionBlocked? {
      assert vs + [v] + [] == vs + [v];
    } else if !v.Nothing? {
      var rest := ServeAll(g, ids[1..], room - 1, maxSize).1;
      assert vs + ([v] + rest) == vs + [v] + rest;
    }
  }

  lemma AheadEnds(
    last: Flow, all: seq<Service>, vs: seq<Service>, f: Flow, ids: seq<nat>, room: nat, maxSize: nat, done: bool)
    requires f.Valid() && Ahead(last, all, vs, f, ids, room, maxSize, done) && (done || ids == [] || room == 0)
    ensures last == f && all == vs
  {
    hide Flow.Valid;
    assert vs + [] == vs;
  }

  class StreamSendSet {
    var streams: map<nat, Sender>
    const initialMaxData: nat
    var bidiLimit: nat
    var uniLimit: nat
    var bidiBlocked: bool
    var uniBlocked: bool
    var connectionMax: nat
    var connectionSent: nat

    ghost function Abstract(): Flow
      reads this
    {
      Flow(streams, initialMaxData, bidiLimit, uniLimit, bidiBlocked, uniBlocked, connectionMax, connectionSent)
    }

    ghost predicate Valid()
      reads this
    {
      Abstract().Valid()
    }

    constructor (initialMaxData: u64, bidiLimit: nat, uniLimit: nat, connectionMax: u64)
      ensures Valid() && Abstract() == NewFlow(initialMaxData, bidiLimit, uniLimit, connectionMax)
    {
      streams, this.initialMaxData, this.bidiLimit, this.uniLimit := map[], initialMaxData, bidiLimit, uniLimit;
      bidiBlocked, uniBlocked, this.connectionMax, connectionSent := false, false, connectionMax, 0;
      SumOfNothing(U64_MAX + 1);
    }

    /** `ensure_state_for`: a stream beyond the peer's limit is not made, and the direction is marked blocked. */
    method EnsureState(id: u64) returns (found: bool)
      requires Valid()
      modifies this
      ensures found == MayOpen(old(Abstract()), id)
      ensures Abstract() == if found then Put(old(Abstract()), id, StateFor(old(Abstract()), id))
                            else MarkBlocked(old(Abstract()), DirectionOf(id))
      ensures found ==> id in streams
    {
      if id in streams {
        assert streams[id := streams[id]] == streams;
        return true;
      }
      var direction := DirectionOf(id);
      if id / 4 >= (if direction.Bidirectional? then bidiLimit else uniLimit) {
        if direction.Bidirectional? {
          bidiBlocked := true;
        } else {
          uniBlocked := true;
        }
        return false;
      }
      streams := streams[id := NewSender(id, initialMaxData)];
      return true;
    }

    method AppendTo(id: u64, data: seq<byte>) returns (ok: bool)
      requires Valid()
      modifies this
      ensures Valid() && Abstract() == Write(old(Abstract()), id, data)
      ensures ok == Accepts(old(Abstract()), id, data)
    {
      ghost var f := Abstract();
      WriteKeepsValid(f, id, data);
      ok := EnsureState(id);
      if ok {
        var s := streams[id];
        ok := CanAppend(s, data);
        streams := streams[id := Append(s, data)];
        assert streams == Write(f, id, data).streams;
      }
    }

    method UpdateMaxData(limit: u64)
      requires Valid()
      modifies this`connectionMax
      ensures Valid() && Abstract() == RaiseData(old(Abstract()), limit)
    {
      hide SumSent;
      connectionMax := Max(connectionMax, limit);
    }

    method UpdateMaxStreamData(id: u64, limit: u64)
      requires Valid()
      modifies this`streams
      ensures Valid() && Abstract() == RaiseStreamData(old(Abstract()), id, limit)
    {
      RaiseKeepsValid(Abstract(), id, limit);
      if id !in streams {
        streams := streams[id := NewSender(id, initialMaxData)];
      }
      streams := streams[id := Credit(streams[id], limit)];
      assert streams == RaiseStreamData(old(Abstract()), id, limit).streams;
    }

    method UpdateMaxStreams(d: Direction, limit: u64)
      requires Valid()
      modifies this`bidiLimit, this`uniLimit
      ensures Valid() && Abstract() == RaiseStreams(old(Abstract()), d, limit)
    {
      hide SumSent;
      if d.Bidirectional? {
        bidiLimit := Max(bidiLimit, limit);
      } else {
        uniLimit := Max(uniLimit, limit);
      }
    }

    method StopStream(id: nat, code: nat)
      requires Valid()
      modifies this`streams
      ensures Valid() && Abstract() == Halt(old(Abstract()), id, code)
    {
      ResolveKeepsValid(Abstract(), id, SendRange(0, 0, false), code);
      if id in streams {
        streams := streams[id := Stop(streams[id], code)];
      }
    }

    method RangeAcked(id: nat, r: SendRange)
      requires Valid()
      modifies this`streams
      ensures Valid() && Abstract() == Confirm(old(Abstract()), id, r)
    {
      ResolveKeepsValid(Abstract(), id, r, 0);
      if id in streams {
        streams := streams[id := OnAcked(streams[id], r)];
      }
    }

    method RangeLost(id: nat, r: SendRange)
      requires Valid()
      modifies this`streams
      ensures Valid() && Abstract() == Miss(old(Abstract()), id, r)
    {
      ResolveKeepsValid(Abstract(), id, r, 0);
      if id in streams {
        streams := streams[id := OnLost(streams[id], r)];
      }
    }

    /** One turn of the scheduling loop. */
    method ServeStream(id: nat, maxSize: nat) returns (v: Service)
      requires Valid()
      modifies this`streams, this`connectionSent
      ensures Valid() && (Abstract(), v) == Serve(old(Abstract()), id, maxSize)
    {
      hide Flow.Valid, Popped, Served, Sender.Valid, Sender.HasRetransmittable;
      ServeConserves(Abstract(), id, maxSize);
      CreditIsThere(Abstract(), id);
      var again := id in streams && streams[id].HasRetransmittable();
      var credit := connectionMax - connectionSent;
      if credit == 0 && !again {
        return if id in streams && streams[id].HasUnsent() then ConnectionBlocked(connectionMax) else Nothing;
      }
      if id !in streams {
        return Nothing;
      }
      v := PopStream(id, if again then maxSize else Min(maxSize, credit));
    }

    method PopStream(id: nat, limit: nat) returns (v: Service)
      requires id in streams && streams[id].Valid()
      modifies this`streams, this`connectionSent
      ensures (Abstract(), v) == Popped(old(Abstract()), id, limit)
    {
      hide Pop, Sender.Valid;
      var (s, e) := Pop(streams[id], limit);
      streams := streams[id := s];
      if e.None? {
        return if s.Blocked() then StreamBlocked(id, s.maxData) else Nothing;
      }
      if !e.value.retransmission {
        connectionSent := connectionSent + |e.value.frame.data|;
      }
      return Emitted(e.value);
    }

    method ScheduleStreamFrames(ids: seq<nat>, maxFrames: nat, maxSize: nat) returns (frames: seq<Frame>)
      requires Valid()
      modifies this`streams, this`connectionSent
      ensures Valid() && (Abstract(), frames) == Schedule(old(Abstract()), ids, maxFrames, maxSize)
    {
      frames := [];
      if maxFrames == 0 {
        return;
      }
      frames := ServeStreams(ids, maxFrames, maxSize);
      hide ServeAll, AsFrames, Flow.Valid;
      ghost var served := frames;
      if |frames| < maxFrames && bidiBlocked {
        frames := frames + [StreamsBlocked(Bidirectional, bidiLimit)];
      }
      if |frames| < maxFrames && uniBlocked {
        frames := frames + [StreamsBlocked(Unidirectional, uniLimit)];
      }
      assert frames ==
          served + if |served| < maxFrames then StreamsBlockedFrames(Abstract(), maxFrames - |served|) else [];
    }

    /** The loop over the streams. */
    method ServeStreams(ids: seq<nat>, maxFrames: nat, maxSize: nat) returns (frames: seq<Frame>)
      requires Valid()
      modifies this`streams, this`connectionSent
      ensures Valid() && |frames| <= maxFrames
      ensures var (f, vs) := ServeAll(old(Abstract()), ids, maxFrames, maxSize);
              Abstract() == f && frames == AsFrames(vs)
    {
      hide Serve, ServeAll, Flow.Valid, Ahead, AsFrames;
      frames := [];
      ghost var vs := [];
      ghost var (last, all) := ServeAll(Abstract(), ids, maxFrames, maxSize);
      var i, done := 0, false;
      AheadStart(Abstract(), ids, maxFrames, maxSize);
      assert ids[0..] == ids;
      while i < |ids| && |frames| != maxFrames && !done
        invariant i <= |ids| && Valid() && |vs| == |frames| <= maxFrames && frames == AsFrames(vs)
        invariant Ahead(last, all, vs, Abstract(), ids[i..], maxFrames - |frames|, maxSize, done)
        decreases |ids| - i
      {
        AheadStep(last, all, vs, Abstract(), ids[i..], maxFrames - |frames|, maxSize);
        var v := ServeStream(ids[i], maxSize);
        FramesGrow(vs, v);
        if !v.Nothing? {
          frames := frames + [v.AsFrame()];
          vs := vs + [v];
        }
        done := v.ConnectionBlocked?;
        assert ids[i..][1..] == ids[i + 1..];
        i := i + 1;
      }
      AheadEnds(last, all, vs, Abstract(), ids[i..], maxFrames - |frames|, maxSize, done);
    }
  }

  lemma WriteKeepsValid(f: Flow, id: u64, data: seq<byte>)
    requires f.Valid()
    ensures Write(f, id, data).Valid()
  {
    StateForIsValid(f, id);
    PutKeepsValid(f, id, Append(StateFor(f, id), data));
  }

  lemma RaiseKeepsValid(f: Flow, id: u64, limit: u64)
    requires f.Valid()
    ensures RaiseStreamData(f, id, limit).Valid()
  {
    StateForIsValid(f, id);
    PutKeepsValid(f, id, Credit(StateFor(f, id), limit));
  }

  lemma ResolveKeepsValid(f: Flow, id: nat, r: SendRange, code: nat)
    requires f.Valid()
    ensures Confirm(f, id, r).Valid() && Miss(f, id, r).Valid() && Halt(f, id, code).Valid()
  {
    if id in f.streams {
      var s := f.streams[id];
      UncoveredIsValid(s, Acknowledged(s, r));
      PutKeepsValid(f, id, OnAcked(s, r));
      PutKeepsValid(f, id, OnLost(s, r));
      PutKeepsValid(f, id, Stop(s, code));
    }
  }

  lemma PutKeepsValid(f: Flow, id: nat, t: Sender)
    requires f.Valid() && id <= U64_MAX && t.Valid() && t.streamId == id && t.nextUnsent == SentBy(f.streams, id)
    ensures Put(f, id, t).Valid()
  {
    hide SumSent, Sender.Valid;
    SumUpdated(f.streams, id, t);
  }
}
