/**
 * Where the moments of a history come from: each of them was caused by the call in which it happened. Bytes are counted
 * as received only for packets that arrived, a path is answered only by a PATH_RESPONSE that arrived, streams hear of a
 * packet only because an ACK frame or a timer concerned it, and so on.
 */
module LoopCauses {
  import opened Common
  import opened Frames
  import opened LoopHistory
  import opened LoopInvariant
  import opened LoopSpec
  import opened LoopState
  import opened Recovery
  import opened SentRecords
  import AckRanges
  import FC = FlowControl
  import PayloadBudget
  import PV = PathValidation

  // ---------------------------------------------------------------- what a call brings

  datatype Packet = Packet(parsed: Parsed, size: u64, env: PacketEnv)

  function ChunkPackets(chunks: seq<Chunk>): seq<Packet> {
    if chunks == [] then [] else
      var c := chunks[0];
      (if c.LongPacket? && c.parsed.Some? then [Packet(PacketIn(c.space, c.parsed.value), c.size, c.env)] else [])
      + ChunkPackets(chunks[1..])
  }

  /** The readable packets of a datagram. */
  function Packets(d: Inbound): seq<Packet> {
    match d
    case ShortDatagram(size, parsed, _, env) => 
      if parsed.Some? then [Packet(PacketIn(AppSpace, parsed.value), size, env)] else []
    case LongDatagram(chunks) => ChunkPackets(chunks)
  }

  function Bytes(packets: seq<Packet>): nat {
    if packets == [] then 0 else packets[0].size + Bytes(packets[1..])
  }

  predicate Confirms(tls: Option<Tls>) {
    tls.Some? && tls.value.confirmed
  }

  /** What may happen and why: packets that arrived, TLS states that were seen, and what the call itself does. */
  datatype Why = Why(
    packets: seq<Packet>, moved: bool, confirms: set<bool>, closes: bool, sends: bool, timer: Option<Space>)

  /** An ACK frame of the packet acknowledges the number, or is three or more ahead of it. */
  ghost predicate Resolves(p: Parsed, i: nat, number: nat, acked: bool)
    requires i < |p.frames|
  {
    && p.frames[i].Ack?
    && (if acked then number in AckRanges.Expand(p.frames[i].ack)
        else number + PACKET_THRESHOLD <= p.frames[i].ack.largest)
  }

  ghost predicate ByPacket(m: Moment, k: Packet) {
    var frames := k.parsed.frames;
    match m
    case Did(a) => a == PacketEvent(k.parsed.space, k.parsed.number)
    case Saw(s, number) => s == k.parsed.space && number == k.parsed.number
    case Told(s, number, acked) =>
      s == k.parsed.space && exists i: nat :: i < |frames| && Resolves(k.parsed, i, number, acked)
    case OnPath(Arrival(size)) => size == k.size
    case OnPath(Response(token)) => PathResponse(token) in frames
    case OnPath(NewPeer(token)) => k.env.token == Some(token)
    case OnPath(Unchallenged) => k.env.token.None?
    case OnStreams(DataGrant(limit)) => MaxData(limit) in frames
    case OnStreams(StreamDataGrant(id, limit)) => MaxStreamData(id, limit) in frames
    case OnStreams(StreamsGrant(d, limit)) => MaxStreams(d, limit) in frames
    case OnStreams(Halted(id, code)) => StopSending(id, code) in frames
    case _ => false
  }

  ghost predicate Permits(w: Why, m: Moment) {
    || (m == Did(Close) && w.closes)
    || (m.Did? && m.action.Datagram? && w.sends)
    || (m.Told? && w.timer == Some(m.space) && !m.acked)
    || m == OnPath(PV.Queueing)
    || (m.OnPath? && m.path.Refresh? && m.path.confirmed in w.confirms)
    || (exists i :: 0 <= i < |w.packets| && ByPacket(m, w.packets[i]) && (Moves(m) ==> w.moved))
  }

  /** From `c` to `d` only permitted things happened, and at most so many bytes were counted as received. */
  ghost predicate Since(c: Conn, d: Conn, w: Why, bytes: nat) {
    && c.past <= d.past && (forall i | |c.past| <= i < |d.past| :: Permits(w, d.past[i]))
    && Arrived(d.past) <= Arrived(c.past) + bytes
    && (w.moved || d.peer == c.peer)
  }

  lemma SinceTwice(c: Conn, d: Conn, e: Conn, w: Why, first: nat, second: nat)
    requires Since(c, d, w, first) && Since(d, e, w, second)
    ensures Since(c, e, w, first + second)
  {
    hide Permits, Arrived;
  }

  lemma SinceNothing(c: Conn, d: Conn, w: Why)
    requires d.past == c.past && d.peer == c.peer
    ensures Since(c, d, w, 0)
  {
  }

  lemma SinceOne(c: Conn, d: Conn, m: Moment, w: Why)
    requires d.past == c.past + [m] && d.peer == c.peer && Permits(w, m)
    ensures Since(c, d, w, if m.OnPath? && m.path.Arrival? then m.path.size else 0)
  {
    hide Permits, Arrived;
    PathNext(c.past, m);
  }

  lemma PacketPermits(w: Why, k: Packet, m: Moment)
    requires k in w.packets && ByPacket(m, k) && (Moves(m) ==> w.moved)
    ensures Permits(w, m)
  {
    var i :| 0 <= i < |w.packets| && w.packets[i] == k;
    assert ByPacket(m, w.packets[i]);
  }

  // ---------------------------------------------------------------- closing, keys and path

  lemma ToClosingSince(c: Conn, at: int, w: Why)
    requires w.closes
    ensures Since(c, ToClosing(c, at), w, 0)
    ensures c.state.Active? ==> Since(c, ToDraining(c, at), w, 0)
  {
    hide Arrived;
    SinceNothing(c, c, w);
    if c.state.Active? {
      SinceOne(c, ToClosing(c, at), Did(Close), w);
      SinceOne(c, ToDraining(c, at), Did(Close), w);
    }
  }

  lemma ChallengeQueuedSince(c: Conn, tls: Option<Tls>, w: Why)
    ensures Since(c, ChallengeQueued(c, tls), w, 0)
  {
    hide Since;
    if c.path.pending.None? || c.path.queued || !SendAllowed(c, tls) {
      SinceNothing(c, c, w);
    } else {
      SinceOne(c, ChallengeQueued(c, tls), OnPath(PV.Queueing), w);
    }
  }

  lemma RefreshedSince(c: Conn, tls: Option<Tls>, w: Why)
    requires Confirms(tls) in w.confirms
    ensures Since(c, Refreshed(c, tls), w, 0)
  {
    hide Since, ChallengeQueued, Swept;
    var d := if c.dirty then Observed(c, tls) else c;
    var e := PV.Refresh(tls.Some? && tls.value.confirmed);
    SinceOne(c, PathStep(d, e), OnPath(e), w);
    ChallengeQueuedSince(PathStep(d, e), tls, w);
    SinceTwice(c, PathStep(d, e), Refreshed(c, tls), w, 0, 0);
  }

  lemma PeerMetSince(c: Conn, from: Endpoint, at: int, k: Packet, w: Why)
    requires k in w.packets && w.closes && (from != c.peer ==> w.moved)
    ensures Since(c, PeerMet(c, from, at, k.env.token, k.env.before), w, 0)
  {
    hide Since, ToClosing, ValidationStarted;
    if from == c.peer {
      SinceNothing(c, c, w);
    } else if c.config.migrationDisabled {
      ToClosingSince(c, at, w);
    } else {
      SinceMoved(c, c.(peer := from), w);
      if c.config.server {
        StartSince(c.(peer := from), at, k, w);
        SinceTwice(c, c.(peer := from), PeerMet(c, from, at, k.env.token, k.env.before), w, 0, 0);
      }
    }
  }

  lemma SinceMoved(c: Conn, d: Conn, w: Why)
    requires d.past == c.past && w.moved
    ensures Since(c, d, w, 0)
  {
  }

  lemma StartSince(c: Conn, at: int, k: Packet, w: Why)
    requires k in w.packets && w.closes && w.moved
    ensures Since(c, ValidationStarted(c, at, k.env.token, k.env.before), w, 0)
  {
    hide Since, Permits, ToClosing, ChallengeQueued, WithQueue, WithoutChallenge, PV.Step;
    var e := if k.env.token.None? then PV.Unchallenged else PV.NewPeer(k.env.token.value);
    var d := PathStep(ChallengeRemoved(c), e);
    PacketPermits(w, k, OnPath(e));
    SinceOne(c, d, OnPath(e), w);
    ToClosingSince(d, at, w);
    ChallengeQueuedSince(d, k.env.before, w);
    SinceTwice(c, d, ValidationStarted(c, at, k.env.token, k.env.before), w, 0, 0);
  }

  // ---------------------------------------------------------------- frames of a packet

  lemma {:induction false} PathFramesSince(c: Conn, frames: seq<Frame>, k: Packet, w: Why)
    requires k in w.packets && forall i | 0 <= i < |frames| :: frames[i] in k.parsed.frames
    ensures Since(c, PathFrames(c, frames), w, 0)
  {
    hide Since, Enqueue, PV.Step;
    if frames == [] {
      SinceNothing(c, c, w);
    } else {
      var n := |frames| - 1;
      var d, e := PathFrames(c, frames[..n]), PathFrames(c, frames);
      PathFramesSince(c, frames[..n], k, w);
      if frames[n].PathResponse? {
        var m := OnPath(PV.Response(frames[n].pathData));
        PacketPermits(w, k, m);
        SinceOne(d, e, m, w);
      } else {
        SinceNothing(d, e, w);
      }
      SinceTwice(c, d, e, w, 0, 0);
    }
  }

  lemma TellSince(c: Conn, s: Space, numbers: seq<nat>, acked: bool, w: Why)
    requires forall i | 0 <= i < |numbers| :: Permits(w, Told(s, numbers[i], acked))
    ensures Since(c, TellStreams(c, s, numbers, acked), w, 0)
  {
    hide Permits, Arrived, Resolved, RangesOf, Tolds;
    AfterTolds(c.past, s, numbers, acked);
    var d := TellStreams(c, s, numbers, acked);
    forall i | |c.past| <= i < |d.past|
      ensures Permits(w, d.past[i])
    {
      assert d.past[i] == Told(s, numbers[i - |c.past|], acked);
    }
  }

  lemma AckTakenSince(c: Conn, s: Space, ack: AckFrame, at: int, i: nat, k: Packet, w: Why)
    requires k in w.packets && s == k.parsed.space && i < |k.parsed.frames| && k.parsed.frames[i] == Ack(ack)
    ensures Since(c, AckTaken(c, s, ack, at), w, 0)
  {
    hide Since, Permits, TellStreams, AckApplied, Measured;
    var o := AckApplied(c.books, s, ack);
    forall j | 0 <= j < |o.acked|
      ensures Permits(w, Told(s, o.acked[j], true))
    {
      AckedExactly(c.books, s, ack, o.acked[j]);
      assert Resolves(k.parsed, i, o.acked[j], true);
      PacketPermits(w, k, Told(s, o.acked[j], true));
    }
    forall j | 0 <= j < |o.lost|
      ensures Permits(w, Told(s, o.lost[j], false))
    {
      LostIsBehind(c.books, s, ack, o.lost[j]);
      assert Resolves(k.parsed, i, o.lost[j], false);
      PacketPermits(w, k, Told(s, o.lost[j], false));
    }
    var d := c.(books := o.books, rtt := Measured(c, s, o.acked, ack, at));
    var e := TellStreams(d, s, o.acked, true);
    SinceNothing(c, d, w);
    TellSince(d, s, o.acked, true, w);
    TellSince(e, s, o.lost, false, w);
    SinceTwice(c, d, e, w, 0, 0);
    SinceTwice(c, e, TellStreams(e, s, o.lost, false), w, 0, 0);
  }

  lemma LostIsBehind(b: Books, s: Space, ack: AckFrame, x: nat)
    requires x in AckApplied(b, s, ack).lost
    ensures x + PACKET_THRESHOLD <= ack.largest
  {
    if AckRanges.Expand(ack) != {} {
      LostExactly(b, s, ack, x);
    }
  }

  lemma {:induction false} AckFramesSince(c: Conn, s: Space, frames: seq<Frame>, at: int, k: Packet, w: Why)
    requires k in w.packets && s == k.parsed.space
    requires |frames| <= |k.parsed.frames| && forall i | 0 <= i < |frames| :: frames[i] == k.parsed.frames[i]
    ensures Since(c, AckFrames(c, s, frames, at), w, 0)
  {
    hide Since, AckTaken;
    if frames == [] {
      SinceNothing(c, c, w);
    } else {
      var n := |frames| - 1;
      var d, e := AckFrames(c, s, frames[..n], at), AckFrames(c, s, frames, at);
      AckFramesSince(c, s, frames[..n], at, k, w);
      if frames[n].Ack? {
        AckTakenSince(d, s, frames[n].ack, at, n, k, w);
      } else {
        SinceNothing(d, e, w);
      }
      SinceTwice(c, d, e, w, 0, 0);
    }
  }

  lemma {:induction false} CreditFramesSince(c: Conn, frames: seq<WireFrame>, k: Packet, w: Why)
    requires k in w.packets && forall i | 0 <= i < |frames| :: frames[i] in k.parsed.frames
    ensures Since(c, CreditFrames(c, frames), w, 0)
  {
    hide Since, FC.RaiseStreamData, FC.RaiseData, FC.RaiseStreams;
    if frames == [] {
      SinceNothing(c, c, w);
    } else {
      var n := |frames| - 1;
      CreditFramesSince(c, frames[..n], k, w);
      CreditFrameSince(CreditFrames(c, frames[..n]), frames[n], k, w);
      SinceTwice(c, CreditFrames(c, frames[..n]), CreditFrames(c, frames), w, 0, 0);
    }
  }

  lemma CreditFrameSince(c: Conn, f: WireFrame, k: Packet, w: Why)
    requires k in w.packets && f in k.parsed.frames
    ensures Since(c, CreditFrame(c, f), w, 0)
  {
    hide Since, FC.RaiseStreamData, FC.RaiseData, FC.RaiseStreams, Permits;
    var d := CreditFrame(c, f);
    if f.MaxStreamData? || f.MaxData? || f.MaxStreams? {
      var m := d.past[|c.past|];
      PacketPermits(w, k, m);
      SinceOne(c, d, m, w);
    } else {
      SinceNothing(c, d, w);
    }
  }

  lemma {:induction false} StopFramesSince(c: Conn, frames: seq<Frame>, k: Packet, w: Why)
    requires k in w.packets && forall i | 0 <= i < |frames| :: frames[i] in k.parsed.frames
    ensures Since(c, StopFrames(c, frames), w, 0)
  {
    hide Since, FC.Halt;
    if frames == [] {
      SinceNothing(c, c, w);
    } else {
      var n := |frames| - 1;
      var d, e, f := StopFrames(c, frames[..n]), StopFrames(c, frames), frames[n];
      StopFramesSince(c, frames[..n], k, w);
      if f.StopSending? {
        var m := OnStreams(FC.Halted(f.streamId, f.errorCode));
        PacketPermits(w, k, m);
        SinceOne(d, e, m, w);
      } else {
        SinceNothing(d, e, w);
      }
      SinceTwice(c, d, e, w, 0, 0);
    }
  }

  // ---------------------------------------------------------------- packets

  lemma RecordedSince(c: Conn, k: Packet, retired: seq<nat>, at: int, w: Why)
    requires k in w.packets
    ensures Since(c, Recorded(c, k.parsed, retired, at), w, 0)
  {
    hide Since, Enqueue, PathFrames, AckFrames, CreditFrames;
    var p := k.parsed;
    var c1 := RetirementsQueued(c, retired);
    var c2 := PathFrames(c1, p.frames);
    var c3 := AckFrames(c2, p.space, p.frames, at);
    SinceNothing(c, c1, w);
    PathFramesSince(c1, p.frames, k, w);
    SinceTwice(c, c1, c2, w, 0, 0);
    AckFramesSince(c2, p.space, p.frames, at, k, w);
    SinceTwice(c, c2, c3, w, 0, 0);
    CreditFramesSince(c3, p.frames, k, w);
    SinceTwice(c, c3, CreditFrames(c3, p.frames), w, 0, 0);
  }

  lemma DeliveredSince(c: Conn, k: Packet, at: int, w: Why)
    requires k in w.packets && w.closes && Confirms(k.env.after) in w.confirms
    ensures Since(c, Delivered(c, k.parsed, at, k.env), w, 0)
  {
    hide Since, StopFrames, Refreshed, ToClosing, FirstReset, FirstCrypto, HasCrypto, StreamRefused;
    var p, env := k.parsed, k.env;
    var c1 := ControlTaken(c, p.frames, env.refused);
    StopFramesSince(c, p.frames[..FirstReset(p.frames, env.refused, 0)], k, w);
    ToClosingSince(c1, at, w);
    SinceTwice(c, c1, ToClosing(c1, at), w, 0, 0);
    var c2 := CryptoTaken(c1, p.frames, env.before, env.refused);
    SinceNothing(c1, c2, w);
    SinceTwice(c, c1, c2, w, 0, 0);
    ToClosingSince(c2, at, w);
    SinceTwice(c, c2, ToClosing(c2, at), w, 0, 0);
    var c3 := Refreshed(c2, env.after);
    RefreshedSince(c2, env.after, w);
    SinceTwice(c, c2, c3, w, 0, 0);
    ToClosingSince(c3, at, w);
    SinceTwice(c, c3, ToClosing(c3, at), w, 0, 0);
    var m := Did(PacketEvent(p.space, p.number));
    PacketPermits(w, k, m);
    SinceOne(c3, Act(c3, m.action), m, w);
    SinceTwice(c, c3, Act(c3, m.action), w, 0, 0);
  }

  lemma FramesTakenSince(c: Conn, k: Packet, at: int, w: Why)
    requires k in w.packets && w.closes && Confirms(k.env.after) in w.confirms && c.state.Active?
    ensures Since(c, FramesTaken(c, k.parsed, at, k.env), w, 0)
  {
    hide Since, AllAllowed, PeerCloses, Recorded, Delivered, ToClosing, ToDraining;
    ToClosingSince(c, at, w);
    if k.env.retired.Some? {
      var d := Recorded(c, k.parsed, k.env.retired.value, at);
      RecordedSince(c, k, k.env.retired.value, at, w);
      DeliveredSince(d, k, at, w);
      SinceTwice(c, d, Delivered(d, k.parsed, at, k.env), w, 0, 0);
    }
  }

  lemma ProcessedSince(c: Conn, k: Packet, from: Endpoint, at: int, w: Why)
    requires k in w.packets && w.closes && Confirms(k.env.after) in w.confirms && (from != c.peer ==> w.moved)
    ensures Since(c, Processed(c, k.parsed, from, k.size, at, k.env), w, k.size)
  {
    hide Since, PeerMet, FramesTaken, WithReceived, PV.Step;
    var p := k.parsed;
    var c0 := Noticed(c, p.space, p.number);
    SinceNothing(c, c, w);
    SinceWider(c, c, w, 0, k.size);
    PacketPermits(w, k, Saw(p.space, p.number));
    SinceOne(c, c0, Saw(p.space, p.number), w);
    var c1 := PeerMet(c0, from, at, k.env.token, k.env.before);
    PeerMetSince(c0, from, at, k, w);
    SinceTwice(c, c0, c1, w, 0, 0);
    SinceWider(c, c1, w, 0, k.size);
    if c1.state.Active? {
      var c2, m := CountReceived(c1, k.size, at), OnPath(PV.Arrival(k.size));
      PacketPermits(w, k, m);
      SinceOne(c1, c2, m, w);
      SinceTwice(c, c1, c2, w, 0, k.size);
      FramesTakenSince(c2, k, at, w);
      SinceTwice(c, c2, FramesTaken(c2, p, at, k.env), w, k.size, 0);
    }
  }

  lemma SinceWider(c: Conn, d: Conn, w: Why, bytes: nat, more: nat)
    requires Since(c, d, w, bytes) && bytes <= more
    ensures Since(c, d, w, more)
  {
    hide Permits, Arrived;
  }

  /** What a datagram may cause. */
  ghost function DatagramWhy(d: Inbound, from: Endpoint, tls: Option<Tls>, peer: Endpoint): Why {
    var ks := Packets(d);
    Why(ks, from != peer, {Confirms(tls)} + (set k | k in ks :: Confirms(k.env.after)), true, false, None)
  }

  ghost predicate Covers(w: Why, k: Packet) {
    k in w.packets && Confirms(k.env.after) in w.confirms
  }

  lemma {:induction false} ChunksTakenSince(c: Conn, chunks: seq<Chunk>, from: Endpoint, at: int, w: Why)
    requires w.closes && (from != c.peer ==> w.moved)
    requires forall k | k in ChunkPackets(chunks) :: Covers(w, k)
    ensures Since(c, ChunksTaken(c, chunks, from, at), w, Bytes(ChunkPackets(chunks)))
    decreases chunks
  {
    hide Since, Processed, ToClosing;
    var all := Bytes(ChunkPackets(chunks));
    SinceNothing(c, c, w);
    SinceWider(c, c, w, 0, all);
    ToClosingSince(c, at, w);
    SinceWider(c, ToClosing(c, at), w, 0, all);
    if chunks != [] && chunks[0].LongPacket? {
      var rest := chunks[1..];
      if c.keys.Discarded(chunks[0].space) {
        var d := ClearedSpace(c, chunks[0].space);
        SinceNothing(c, d, w);
        RestOfPackets(chunks);
        ChunksTakenSince(d, rest, from, at, w);
        SinceTwice(c, d, ChunksTaken(d, rest, from, at), w, 0, Bytes(ChunkPackets(rest)));
        SinceWider(c, ChunksTaken(d, rest, from, at), w, Bytes(ChunkPackets(rest)), all);
      } else if chunks[0].parsed.Some? {
        ChunkSince(c, chunks, from, at, w);
      }
    }
  }

  lemma RestOfPackets(chunks: seq<Chunk>)
    requires chunks != []
    ensures forall k | k in ChunkPackets(chunks[1..]) :: k in ChunkPackets(chunks)
    ensures Bytes(ChunkPackets(chunks[1..])) <= Bytes(ChunkPackets(chunks))
    ensures var c := chunks[0];
            c.LongPacket? && c.parsed.Some? ==>
              && Packet(PacketIn(c.space, c.parsed.value), c.size, c.env) in ChunkPackets(chunks)
              && Bytes(ChunkPackets(chunks)) == c.size + Bytes(ChunkPackets(chunks[1..]))
  {
    var c, rest := chunks[0], ChunkPackets(chunks[1..]);
    if c.LongPacket? && c.parsed.Some? {
      var k := Packet(PacketIn(c.space, c.parsed.value), c.size, c.env);
      assert ChunkPackets(chunks) == [k] + rest && ([k] + rest)[1..] == rest && ([k] + rest)[0] == k;
    } else {
      assert ChunkPackets(chunks) == [] + rest == rest;
    }
  }

  lemma ChunkSince(c: Conn, chunks: seq<Chunk>, from: Endpoint, at: int, w: Why)
    requires w.closes && (from != c.peer ==> w.moved)
    requires forall k | k in ChunkPackets(chunks) :: Covers(w, k)
    requires chunks != [] && chunks[0].LongPacket? && chunks[0].parsed.Some? && !c.keys.Discarded(chunks[0].space)
    ensures Since(c, ChunksTaken(c, chunks, from, at), w, Bytes(ChunkPackets(chunks)))
    decreases chunks, 0
  {
    hide Processed, ToClosing, Arrived, Permits;
    var h, rest := chunks[0], chunks[1..];
    var k, more := Packet(PacketIn(h.space, h.parsed.value), h.size, h.env), Bytes(ChunkPackets(chunks[1..]));
    RestOfPackets(chunks);
    assert Covers(w, k);
    ProcessedSince(c, k, from, at, w);
    var d := Processed(c, k.parsed, from, k.size, at, k.env);
    SinceWider(c, d, w, k.size, k.size + more);
    ToClosingSince(d, at, w);
    SinceTwice(c, d, ToClosing(d, at), w, k.size, 0);
    SinceWider(c, ToClosing(d, at), w, k.size, k.size + more);
    if d.state.Active? && h.env.protectorsRefreshed {
      ChunksTakenSince(d, rest, from, at, w);
      SinceTwice(c, d, ChunksTaken(d, rest, from, at), w, k.size, more);
    }
  }

  lemma DatagramTakenSince(c: Conn, d: Inbound, from: Endpoint, at: int, tls: Option<Tls>)
    ensures Since(c, DatagramTaken(c, d, from, at, tls), DatagramWhy(d, from, tls, c.peer), Bytes(Packets(d)))
  {
    hide Permits, Refreshed, ChunksTaken, Processed, ToClosing, ToDraining, Arrived;
    var w, all := DatagramWhy(d, from, tls, c.peer), Bytes(Packets(d));
    SinceNothing(c, c, w);
    SinceWider(c, c, w, 0, all);
    if c.state.Active? {
      var c1 := Refreshed(c, tls);
      RefreshedSince(c, tls, w);
      RefreshedPeer(c, tls);
      match d
      case LongDatagram(chunks) =>
        ChunksTakenSince(c1, chunks, from, at, w);
        SinceTwice(c, c1, ChunksTaken(c1, chunks, from, at), w, 0, all);
      case ShortDatagram(size, parsed, statelessReset, env) =>
        SinceNothing(c1, ClearedSpace(c1, AppSpace), w);
        ToClosingSince(c1, at, w);
        ShortSince(c1, d, from, at, w);
        SinceTwice(c, c1, DatagramTaken(c, d, from, at, tls), w, 0, all);
    }
  }

  lemma RefreshedPeer(c: Conn, tls: Option<Tls>)
    ensures Refreshed(c, tls).peer == c.peer && Refreshed(c, tls).state == c.state
  {
    hide Swept, PV.Step;
  }

  lemma ShortSince(c: Conn, d: Inbound, from: Endpoint, at: int, w: Why)
    requires d.ShortDatagram? && w.closes && c.state.Active? && (from != c.peer ==> w.moved)
    requires forall k | k in Packets(d) :: Covers(w, k)
    ensures var all := Bytes(Packets(d));
            && Since(c, ClearedSpace(c, AppSpace), w, all) && Since(c, ToClosing(c, at), w, all)
            && Since(c, ToDraining(c, at), w, all)
            && (d.parsed.Some? ==>
                  Since(c, Processed(c, PacketIn(AppSpace, d.parsed.value), from, d.size, at, d.env), w, all))
  {
    hide Since, Processed, ToClosing, ToDraining;
    var all := Bytes(Packets(d));
    SinceNothing(c, ClearedSpace(c, AppSpace), w);
    SinceWider(c, ClearedSpace(c, AppSpace), w, 0, all);
    ToClosingSince(c, at, w);
    SinceWider(c, ToClosing(c, at), w, 0, all);
    SinceWider(c, ToDraining(c, at), w, 0, all);
    if d.parsed.Some? {
      var k := Packet(PacketIn(AppSpace, d.parsed.value), d.size, d.env);
      assert Packets(d) == [k] && [k][1..] == [] && Covers(w, k);
      ProcessedSince(c, k, from, at, w);
    }
  }

  // ---------------------------------------------------------------- sending

  ghost function FlushWhy(env: FlushEnv): Why {
    Why([], false, {Confirms(env.before), Confirms(env.after)}, true, true, None)
  }

  lemma SpaceFlushedSince(c: Conn, s: Space, at: int, tls: Option<Tls>, env: SendEnv, w: Why)
    requires w.closes && w.sends
    ensures Since(c, SpaceFlushed(c, s, at, tls, env), w, 0)
  {
    hide Since, ToClosing, PayloadBudget.Front, PayloadBudget.Sound, PV.Allows, PV.Emitted, Sent, Cleared, AckEliciting;
    var d := SpaceFlushed(c, s, at, tls, env);
    ToClosingSince(c, at, w);
    if d.past == c.past {
      PeerUnchanged(c, s, at, tls, env);
      SinceNothing(c, d, w);
    } else if !HeldBack(c, s, env) && Sendable(c, s, tls, env) {
      SinceOne(c, d, d.past[|c.past|], w);
    }
  }

  lemma PeerUnchanged(c: Conn, s: Space, at: int, tls: Option<Tls>, env: SendEnv)
    ensures SpaceFlushed(c, s, at, tls, env).peer == c.peer
  {
  }

  lemma SpacesFlushedSince(c: Conn, at: int, env: FlushEnv, w: Why)
    requires w.closes && w.sends
    ensures Since(c, SpacesFlushed(c, at, env), w, 0)
  {
    hide Since, SpaceFlushed;
    SinceNothing(c, c, w);
    if c.state.Active? {
      var c1 := SpaceFlushed(c, InitialSpace, at, env.after, env.initial);
      SpaceFlushedSince(c, InitialSpace, at, env.after, env.initial, w);
      if c1.state.Active? {
        var c2 := SpaceFlushed(c1, HandshakeSpace, at, env.after, env.handshake);
        SpaceFlushedSince(c1, HandshakeSpace, at, env.after, env.handshake, w);
        SinceTwice(c, c1, c2, w, 0, 0);
        if c2.state.Active? {
          SpaceFlushedSince(c2, AppSpace, at, env.after, env.application, w);
          SinceTwice(c, c2, SpaceFlushed(c2, AppSpace, at, env.after, env.application), w, 0, 0);
        }
      }
    }
  }

  lemma {:induction false} ItemsPumpedSince(c: Conn, items: seq<CryptoItem>, clock: int, w: Why)
    requires w.closes
    ensures Since(c, ItemsPumped(c, items, clock), w, 0)
    decreases items
  {
    hide Since, Enqueue, ToClosing;
    SinceNothing(c, c, w);
    if items != [] {
      ToClosingSince(c, clock, w);
      var item, rest := items[0], items[1..];
      if c.keys.Discarded(item.space) {
        ItemsPumpedSince(c, rest, clock, w);
      } else if item.frames.Some? {
        var d := c.(books := Enqueue(c.books, item.space, item.frames.value));
        SinceNothing(c, d, w);
        ItemsPumpedSince(d, rest, clock, w);
        SinceTwice(c, d, ItemsPumped(d, rest, clock), w, 0, 0);
      }
    }
  }

  lemma FlushedSince(c: Conn, at: int, env: FlushEnv)
    ensures Since(c, Flushed(c, at, env), FlushWhy(env), 0)
  {
    hide Since, Refreshed, ItemsPumped, ToClosing, SpacesFlushed;
    var w := FlushWhy(env);
    SinceNothing(c, c, w);
    if c.state.Active? {
      var c1 := Refreshed(c, env.before);
      RefreshedSince(c, env.before, w);
      var c2 := Pumped(c1, env.pump, env.clock);
      SinceNothing(c1, c1, w);
      ToClosingSince(c1, env.clock, w);
      if env.pump.Drained? {
        SinceNothing(c1, c1.(dirty := true), w);
        ItemsPumpedSince(c1.(dirty := true), env.pump.items, env.clock, w);
        SinceTwice(c1, c1.(dirty := true), c2, w, 0, 0);
      }
      SinceTwice(c, c1, c2, w, 0, 0);
      var c3 := Refreshed(c2, env.after);
      RefreshedSince(c2, env.after, w);
      SinceTwice(c, c2, c3, w, 0, 0);
      SpacesFlushedSince(c3, at, env, w);
      SinceTwice(c, c3, SpacesFlushed(c3, at, env), w, 0, 0);
    }
  }

  lemma AckSentSince(c: Conn, s: Space, at: int, tls: Option<Tls>, assembled: Option<u64>)
    ensures Since(c, AckSent(c, s, at, tls, assembled), Why([], false, {Confirms(tls)}, true, true, None), 0)
  {
    hide Since, Refreshed, ToClosing, PV.Allows, PV.Emitted, Sent, Cleared, AckFor;
    var w := Why([], false, {Confirms(tls)}, true, true, None);
    SinceNothing(c, c, w);
    if c.state.Active? {
      var c1, d := Refreshed(c, tls), AckSent(c, s, at, tls, assembled);
      RefreshedSince(c, tls, w);
      ToClosingSince(c1, at, w);
      if d.past == c1.past && d.peer == c1.peer {
        SinceNothing(c1, d, w);
      } else if assembled.Some? {
        SinceOne(c1, d, d.past[|c1.past|], w);
      }
      SinceTwice(c, c1, d, w, 0, 0);
    }
  }

  // ---------------------------------------------------------------- timers

  lemma TimerFiredSince(c: Conn, s: Space, now: int, tls: Option<Tls>)
    ensures Since(c, TimerFired(c, s, now, tls), Why([], false, {Confirms(tls)}, false, false, Some(s)), 0)
  {
    hide Since, Refreshed, TellStreams, LossesDue, Retire, Cleared;
    var w := Why([], false, {Confirms(tls)}, false, false, Some(s));
    SinceNothing(c, c, w);
    if c.state.Active? {
      var c1 := Refreshed(c, tls);
      RefreshedSince(c, tls, w);
      SinceNothing(c1, ClearedSpace(c1, s), w);
      SinceTwice(c, c1, ClearedSpace(c1, s), w, 0, 0);
      var lost := LossesDue(c1, s, now);
      var d := c1.(books := Retire(c1.books, s, lost, Lost));
      SinceNothing(c1, d, w);
      SinceTwice(c, c1, d, w, 0, 0);
      TellSince(d, s, lost, false, w);
      SinceTwice(c, d, TellStreams(d, s, lost, false), w, 0, 0);
    }
  }

  // ---------------------------------------------------------------- calls

  const Nothing := Why([], false, {}, false, false, None)

  /** What a call may cause in a connection. */
  ghost predicate Causes(c: Conn, call: Call, m: Moment) {
    match call
    case CallFlush(_, env) => Permits(FlushWhy(env), m)
    case CallAcknowledge(_, _, tls, _) => Permits(Why([], false, {Confirms(tls)}, true, true, None), m)
    case CallDatagram(d, from, _, tls) => Permits(DatagramWhy(d, from, tls, c.peer), m)
    case CallRecoveryTimer(s, _, tls) => Permits(Why([], false, {Confirms(tls)}, false, false, Some(s)), m)
    case CallLifecycleTimer(_, _) => m == Did(Close)
    case CallNextRecoveryTimer(tls) => Permits(Nothing.(confirms := {Confirms(tls)}), m)
    case CallAppend(id, data) => m == OnStreams(FC.Writing(id, data))
    case CallSchedule(ids, maxFrames, maxSize) => m == OnStreams(FC.Pass(ids, maxFrames, maxSize))
    case CallMaxData(limit) => m == OnStreams(FC.DataGrant(limit))
    case CallDrain => m == Handed(c.actions)
    case _ => false
  }

  /** The bytes of the packets a call brings. */
  ghost function BytesOf(call: Call): nat {
    if call.CallDatagram? then Bytes(Packets(call.inbound)) else 0
  }

  /** The address from which it brings them. */
  ghost predicate MayMove(c: Conn, call: Call) {
    call.CallDatagram? && call.from != c.peer
  }

  lemma SinceMeans(c: Conn, d: Conn, w: Why, bytes: nat, call: Call)
    requires Since(c, d, w, bytes) && bytes == BytesOf(call) && (w.moved ==> MayMove(c, call))
    requires forall m :: Permits(w, m) ==> Causes(c, call, m)
    ensures forall i | |c.past| <= i < |d.past| :: Causes(c, call, d.past[i])
    ensures Arrived(d.past) <= Arrived(c.past) + BytesOf(call)
    ensures MayMove(c, call) || d.peer == c.peer
  {
    hide Permits, Arrived, Causes;
  }

  /**
   * Every moment a call adds to the history is one that the call can cause; it counts at most the bytes of its packets
   * as received, and the peer address changes only when the call brings a datagram from another one.
   */
  lemma MomentsHaveCauses(c: Conn, call: Call)
    requires Inv(c)
    ensures c.flow.Valid()
    ensures var d := Step(c, call);
            && c.past <= d.past && (forall i | |c.past| <= i < |d.past| :: Causes(c, call, d.past[i]))
            && Arrived(d.past) <= Arrived(c.past) + BytesOf(call)
            && (MayMove(c, call) || d.peer == c.peer)
  {
    hide Inv, Permits, Since, Arrived, Flushed, AckSent, DatagramTaken, TimerFired, LifecycleFired, Refreshed,
      Packets, Bytes, FC.Flow.Valid, FlushWhy, DatagramWhy;
    StepKeeps(c, call);
    var d := Step(c, call);
    match call
    case CallFlush(at, env) =>
      FlushedSince(c, at, env);
      FlushMovesNothing(env);
      SinceMeans(c, d, FlushWhy(env), 0, call);
    case CallAcknowledge(space, at, tls, assembled) =>
      AckSentSince(c, space, at, tls, assembled);
      SinceMeans(c, d, Why([], false, {Confirms(tls)}, true, true, None), 0, call);
    case CallDatagram(inbound, from, at, tls) =>
      DatagramTakenSince(c, inbound, from, at, tls);
      DatagramMoves(inbound, from, tls, c.peer);
      SinceMeans(c, d, DatagramWhy(inbound, from, tls, c.peer), Bytes(Packets(inbound)), call);
    case CallRecoveryTimer(space, at, tls) =>
      TimerFiredSince(c, space, at, tls);
      SinceMeans(c, d, Why([], false, {Confirms(tls)}, false, false, Some(space)), 0, call);
    case CallNextRecoveryTimer(tls) =>
      var w := Nothing.(confirms := {Confirms(tls)});
      RefreshedSince(c, tls, w);
      SinceNothing(c, c, w);
      SinceMeans(c, d, w, 0, call);
    case CallLifecycleTimer(kind, at) => LifecycleAdds(c, kind, at);
    case _ => SmallCallsAdd(c, call);
  }

  lemma FlushMovesNothing(env: FlushEnv)
    ensures !FlushWhy(env).moved
  {
  }

  lemma DatagramMoves(d: Inbound, from: Endpoint, tls: Option<Tls>, peer: Endpoint)
    ensures DatagramWhy(d, from, tls, peer).moved == (from != peer)
  {
  }

  lemma LifecycleAdds(c: Conn, kind: TimerKind, now: int)
    ensures var d := LifecycleFired(c, kind, now);
            && c.past <= d.past && d.peer == c.peer && Arrived(d.past) == Arrived(c.past)
            && (forall i | |c.past| <= i < |d.past| :: d.past[i] == Did(Close))
  {
    hide Arrived, AllCleared, Lifecycle, PathEvents, ReceivedSince, SentSince;
    PathNext(c.past, Did(Close));
  }

  lemma QuietCallsAdd(c: Conn, call: Call)
    requires c.flow.Valid()
    requires call.CallNextLifecycleTimer? || call.CallDiscard? || call.CallQueue? || call.CallRttSample?
    ensures Step(c, call).past == c.past && Step(c, call).peer == c.peer
  {
    hide FC.Flow.Valid, Cleared, WithQueue, Flushed, AckSent, DatagramTaken, TimerFired, LifecycleFired, NextTimerAsked,
      DataAppended, Scheduled, DataLimitRaised, ActionsTaken;
  }

  lemma SmallCallsAdd(c: Conn, call: Call)
    requires c.flow.Valid()
    requires call.CallNextLifecycleTimer? || call.CallDiscard? || call.CallQueue? || call.CallAppend?
          || call.CallSchedule? || call.CallMaxData? || call.CallRttSample? || call.CallDrain?
    ensures var d := Step(c, call);
            && c.past <= d.past && d.peer == c.peer && Arrived(d.past) == Arrived(c.past)
            && (forall i | |c.past| <= i < |d.past| :: Causes(c, call, d.past[i]))
  {
    hide Arrived, Permits, FC.Flow.Valid, FlushWhy, DatagramWhy;
    match call {
      case CallAppend(id, data) => NotedCallsAdd(c, call, OnStreams(FC.Writing(id, data)));
      case CallSchedule(ids, maxFrames, maxSize) => NotedCallsAdd(c, call, OnStreams(FC.Pass(ids, maxFrames, maxSize)));
      case CallMaxData(limit) => NotedCallsAdd(c, call, OnStreams(FC.DataGrant(limit)));
      case CallDrain => NotedCallsAdd(c, call, Handed(c.actions));
      case _ => QuietCallsAdd(c, call);
    }
    hide Step;
  }

  /** A call that adds at most one moment, which is no arrival. */
  lemma NotedCallsAdd(c: Conn, call: Call, m: Moment)
    requires c.flow.Valid()
    requires call.CallAppend? || call.CallSchedule? || call.CallMaxData? || call.CallDrain?
    requires m == if call.CallAppend? then OnStreams(FC.Writing(call.id, call.data))
                  else if call.CallSchedule? then OnStreams(FC.Pass(call.ids, call.maxFrames, call.maxSize))
                  else if call.CallMaxData? then OnStreams(FC.DataGrant(call.limit))
                  else Handed(c.actions)
    ensures var d := Step(c, call);
            (d.past == c.past || d.past == c.past + [m]) && d.peer == c.peer && Arrived(d.past) == Arrived(c.past)
  {
    hide Arrived, FC.Flow.Valid, FC.Schedule, FC.Write, FC.RaiseData;
    PathNext(c.past, m);
  }
}
