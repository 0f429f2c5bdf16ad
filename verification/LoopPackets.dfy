/**
 * What a packet does beyond what `LoopEffects` says: its acknowledgements, and the look at TLS that it brings about.
 */
module LoopPackets {
  import opened Common
  import opened Frames
  import opened LoopHistory
  import opened LoopMeaning
  import opened LoopOutcomes
  import opened LoopReceived
  import opened LoopRuns
  import opened LoopSpec
  import opened LoopState
  import opened Recovery
  import opened SentRecords
  import AckRanges
  import FC = FlowControl
  import PV = PathValidation

  // ---------------------------------------------------------------- one ACK frame

  /**
   * What the streams are told by an ACK frame: first, in order, the packets it acknowledges, which are the outstanding
   * ones it names; then, in order, those it makes lost, which asked for an acknowledgement and are three or more
   * behind.
   */
  lemma AckTells(c: Conn, s: Space, ack: AckFrame, at: int) returns (acked: seq<nat>, lost: seq<nat>)
    requires Agree(c.books)
    ensures var d, ps := AckTaken(c, s, ack, at), c.books.Get(s).sent;
            && d.past == c.past + seq(|acked|, i requires 0 <= i < |acked| => Told(s, acked[i], true))
                         + seq(|lost|, i requires 0 <= i < |lost| => Told(s, lost[i], false))
            && Ascending(acked) && Ascending(lost)
            && (forall x :: x in acked <==>
                  && x in AckRanges.Expand(ack)
                  && exists i :: 0 <= i < |ps| && ps[i].number == x && ps[i].state == Outstanding)
            && (forall x :: x in lost <==>
                  && AckRanges.Expand(ack) != {} && x !in AckRanges.Expand(ack) && x + 3 <= ack.largest
                  && exists i :: 0 <= i < |ps| && ps[i].number == x && ps[i].state == Outstanding && ps[i].ackEliciting)
  {
    hide AckApplied, Measured, Resolved, RangesOf, Agree, AckRanges.Expand;
    var o := AckApplied(c.books, s, ack);
    acked, lost := o.acked, o.lost;
    AckIsTwoRetirements(c.books, s, ack);
    forall x: nat
      ensures x in acked <==> IsOutstanding(c.books.Get(s).sent, x) && x in AckRanges.Expand(ack)
    {
      AckedExactly(c.books, s, ack, x);
    }
    forall x: nat
      ensures x in lost <==>
              && AckRanges.Expand(ack) != {} && IsAwaited(c.books.Get(s).sent, x)
              && x !in AckRanges.Expand(ack) && x + 3 <= ack.largest
    {
      if AckRanges.Expand(ack) != {} {
        LostExactly(c.books, s, ack, x);
      } else {
        NothingIsLost(c.books, s, ack);
      }
    }
  }

  lemma NothingIsLost(b: Books, s: Space, ack: AckFrame)
    requires AckRanges.Expand(ack) == {}
    ensures AckApplied(b, s, ack).lost == []
  {
    hide MarkAll;
  }

  // ---------------------------------------------------------------- the steps of a packet

  /** The address is met without touching keys, records or what is known of TLS. */
  lemma PeerMetKeepsRecords(c: Conn, from: Endpoint, at: int, token: Option<PathToken>, tls: Option<Tls>)
    requires c.state.Active?
    ensures var d := PeerMet(c, from, at, token, tls);
            d.state.Active? ==>
              && SameRecords(c.books, d.books) && d.keys == c.keys && d.dirty == c.dirty && d.confirmed == c.confirmed
  {
    hide ToClosing, ValidationStarted;
    ClosingIsNotActive(c, at);
    if token.Some? {
      StartKeepsRecords(c.(peer := from), at, token.value, tls);
    } else {
      StartCloses(c.(peer := from), at, tls);
    }
  }

  lemma StartCloses(c: Conn, at: int, tls: Option<Tls>)
    ensures !ValidationStarted(c, at, None, tls).state.Active?
  {
    hide ToClosing, PV.Step, WithoutChallenge, WithQueue;
    ClosingIsNotActive(PathStep(ChallengeRemoved(c), PV.Unchallenged), at);
  }

  lemma StartKeepsRecords(c: Conn, at: int, token: PathToken, tls: Option<Tls>)
    ensures var d := ValidationStarted(c, at, Some(token), tls);
            SameRecords(c.books, d.books) && d.keys == c.keys && d.dirty == c.dirty && d.confirmed == c.confirmed
  {
    hide PV.Step, WithoutChallenge;
  }

  /** The state in which a packet's frames are taken. */
  ghost function Met(c: Conn, p: Parsed, from: Endpoint, size: u64, at: int, env: PacketEnv): Conn {
    CountReceived(PeerMet(Noticed(c, p.space, p.number), from, at, env.token, env.before), size, at)
  }

  lemma MetKeeps(c: Conn, p: Parsed, from: Endpoint, size: u64, at: int, env: PacketEnv)
    requires c.state.Active?
    ensures var d := Met(c, p, from, size, at, env);
            d.state.Active? ==>
              && (forall s :: d.books.Get(s).sent == c.books.Get(s).sent)
              && d.keys == c.keys && d.dirty == c.dirty && d.confirmed == c.confirmed
  {
    hide PeerMet, PV.Step;
    var c0 := Noticed(c, p.space, p.number);
    PeerMetKeepsRecords(c0, from, at, env.token, env.before);
    assert forall s :: c0.books.Get(s).sent == c.books.Get(s).sent;
  }

  /** A packet that leaves the connection active went all the way. */
  lemma PacketGoesThrough(c: Conn, p: Parsed, from: Endpoint, size: u64, at: int, env: PacketEnv)
    requires c.state.Active? && p.number !in c.books.Get(p.space).received
    requires Processed(c, p, from, size, at, env).state.Active?
    ensures var b := Met(c, p, from, size, at, env);
            && b.state.Active? && env.retired.Some?
            && Processed(c, p, from, size, at, env) == Delivered(Recorded(b, p, env.retired.value, at), p, at, env)
  {
    hide PeerMet, Recorded, Delivered, ToClosing, ToDraining, AllAllowed, PeerCloses, PV.Step, WithReceived;
    var b := Met(c, p, from, size, at, env);
    ClosingIsNotActive(b, at);
    DrainingIsNotActive(b, at);
  }

  lemma DrainingIsNotActive(c: Conn, at: int)
    ensures !ToDraining(c, at).state.Active?
  {
  }

  /** The last steps of a packet that leaves the connection active. */
  lemma DeliveryGoesThrough(c: Conn, p: Parsed, at: int, env: PacketEnv)
    requires c.state.Active? && Delivered(c, p, at, env).state.Active?
    ensures var c2 := CryptoTaken(StopFrames(c, p.frames), p.frames, env.before, env.refused);
            && Delivered(c, p, at, env) == Act(Refreshed(c2, env.after), PacketEvent(p.space, p.number))
            && (env.before.Some? ==> FirstCrypto(p.frames, env.refused, 0) == |p.frames|)
  {
    hide ToClosing, Refreshed, StopFrames, HasCrypto, StreamRefused;
    assert p.frames[..|p.frames|] == p.frames;
    var c1 := ControlTaken(c, p.frames, env.refused);
    ClosingIsNotActive(c1, at);
    var c2 := CryptoTaken(c1, p.frames, env.before, env.refused);
    ClosingIsNotActive(c2, at);
    ClosingIsNotActive(Refreshed(c2, env.after), at);
  }

  // ---------------------------------------------------------------- keys

  lemma {:induction false} FoldsKeepConfirmed(c: Conn, s: Space, frames: seq<WireFrame>, at: int)
    ensures PathFrames(c, frames).confirmed == c.confirmed && AckFrames(c, s, frames, at).confirmed == c.confirmed
    ensures CreditFrames(c, frames).confirmed == c.confirmed
  {
    hide Enqueue, PV.Step, AckApplied, Measured, Resolved, RangesOf, Tolds, FC.RaiseData, FC.RaiseStreamData,
      FC.RaiseStreams;
    if frames != [] {
      FoldsKeepConfirmed(c, s, frames[..|frames| - 1], at);
    }
  }

  lemma RecordedKeepsConfirmed(c: Conn, p: Parsed, retired: seq<nat>, at: int)
    ensures Recorded(c, p, retired, at).confirmed == c.confirmed
  {
    hide PathFrames, AckFrames, CreditFrames, Enqueue;
    var c1 := RetirementsQueued(c, retired);
    var c2 := PathFrames(c1, p.frames);
    FoldsKeepConfirmed(c1, p.space, p.frames, at);
    FoldsKeepConfirmed(c2, p.space, p.frames, at);
    FoldsKeepConfirmed(AckFrames(c2, p.space, p.frames, at), p.space, p.frames, at);
  }

  lemma {:induction false} StopsKeepKeys(c: Conn, frames: seq<Frame>)
    ensures var d := StopFrames(c, frames);
            && d.keys == c.keys && d.dirty == c.dirty && d.confirmed == c.confirmed && c.past <= d.past
  {
    hide FC.Halt;
    if frames != [] {
      StopsKeepKeys(c, frames[..|frames| - 1]);
    }
  }

  /**
   * A packet with CRYPTO data makes the loop look at TLS again: what it then knows of keys and handshake is what TLS
   * says after the packet. A packet without leaves that as it was, unless a look was due anyway.
   */
  lemma CryptoMovesKeys(c: Conn, p: Parsed, from: Endpoint, size: u64, at: int, env: PacketEnv)
    requires c.state.Active? && p.number !in c.books.Get(p.space).received
    requires Processed(c, p, from, size, at, env).state.Active?
    ensures var d := Processed(c, p, from, size, at, env);
            var crypto := env.before.Some? && exists i :: 0 <= i < |p.frames| && p.frames[i].Crypto?;
            var looks := (c.dirty || crypto) && env.after.Some?;
            && !d.dirty
            && d.confirmed == (if looks then env.after.value.confirmed else c.confirmed)
            && d.keys == Keys(c.keys.initialGone || (looks && env.after.value.handshakeKeys), c.keys.handshakeGone,
                              c.keys.appGone, c.keys.oneRttSend || (looks && env.after.value.applicationKeys))
  {
    hide PeerMet, Recorded, Delivered, Refreshed, StopFrames, PV.Step;
    PacketGoesThrough(c, p, from, size, at, env);
    MetKeeps(c, p, from, size, at, env);
    var b := Met(c, p, from, size, at, env);
    var e := Recorded(b, p, env.retired.value, at);
    RecordedStaysInside(b, p, env.retired.value, at);
    RecordedKeepsConfirmed(b, p, env.retired.value, at);
    DeliveryGoesThrough(e, p, at, env);
    StopsKeepKeys(e, p.frames);
    var c2 := CryptoTaken(StopFrames(e, p.frames), p.frames, env.before, env.refused);
    assert p.frames[..|p.frames|] == p.frames;
    RefreshedExactly(c2, env.after);
  }

  // ---------------------------------------------------------------- acknowledgements

  lemma {:induction false} ReportsGrow(h: seq<Moment>, k: seq<Moment>)
    requires h <= k
    ensures Reports(h) <= Reports(k)
    decreases |k|
  {
    if |h| == |k| {
      assert h == k;
    } else {
      ReportsGrow(h, k[..|k| - 1]);
    }
  }

  /**
   * Every outstanding packet that an ACK frame of an accepted packet names is reported to the streams by the time the
   * packet is delivered.
   */
  lemma AcksAreReported(c: Conn, p: Parsed, from: Endpoint, size: u64, at: int, env: PacketEnv, i: nat, x: nat)
    requires c.state.Active? && p.number !in c.books.Get(p.space).received
    requires Processed(c, p, from, size, at, env).state.Active?
    requires i < |p.frames| && p.frames[i].Ack? && x in AckRanges.Expand(p.frames[i].ack)
    requires exists j :: 0 <= j < |c.books.Get(p.space).sent| && c.books.Get(p.space).sent[j].number == x
                         && c.books.Get(p.space).sent[j].state == Outstanding
    ensures Report(p.space, x) in Reports(Processed(c, p, from, size, at, env).past)
  {
    hide PeerMet, Delivered, Refreshed, StopFrames, PV.Step, PathFrames, AckFrames, CreditFrames, Reports,
      AckRanges.Expand, Enqueue, NoneForgotten;
    PacketGoesThrough(c, p, from, size, at, env);
    MetKeeps(c, p, from, size, at, env);
    var b, retired := Met(c, p, from, size, at, env), env.retired.value;
    var c1 := RetirementsQueued(b, retired);
    var c2 := PathFrames(c1, p.frames);
    var c3 := AckFrames(c2, p.space, p.frames, at);
    PathFramesQueue(c1, p.frames);
    QueueKeepsSent(b, retired);
    AckFramesReport(c2, p.space, p.frames, at);
    assert IsOutstanding(c2.books.Get(p.space).sent, x);
    assert Report(p.space, x) in Reports(c3.past);
    var d := Recorded(b, p, retired, at);
    RecordedStaysInside(b, p, retired, at);
    CreditFramesQuiet(c3, p.frames);
    DeliveryLeads(d, p, at, env);
    ReportsGrow(c3.past, Processed(c, p, from, size, at, env).past);
  }

  lemma QueueKeepsSent(c: Conn, retired: seq<nat>)
    ensures forall s :: RetirementsQueued(c, retired).books.Get(s).sent == c.books.Get(s).sent
  {
  }

  lemma DeliveryLeads(c: Conn, p: Parsed, at: int, env: PacketEnv)
    requires c.state.Active? && Delivered(c, p, at, env).state.Active?
    ensures c.past <= Delivered(c, p, at, env).past
  {
    hide Delivered, Refreshed, StopFrames, HasCrypto;
    DeliveryGoesThrough(c, p, at, env);
    StopsKeepKeys(c, p.frames);
    RefreshedQuiet(CryptoTaken(StopFrames(c, p.frames), p.frames, env.before, env.refused), env.after);
  }

  // ---------------------------------------------------------------- a long-header datagram

  /** A datagram of long-header packets: a look at TLS, and then packet by packet as in `LoopMeaning.ChunksInTurn`. */
  lemma LongDatagramInTurn(c: Conn, chunks: seq<Chunk>, from: Endpoint, at: int, tls: Option<Tls>)
    returns (states: seq<Conn>)
    requires c.state.Active?
    ensures 0 < |states| <= |chunks| + 1 && states[0] == Refreshed(c, tls)
    ensures forall i | 0 <= i < |states| - 1 ::
              || IsTaken(states[i], chunks[i], from, at, states[i + 1])
              || IsPassedOver(states[i], chunks[i], states[i + 1])
    ensures var n, d := |states| - 1, DatagramTaken(c, LongDatagram(chunks), from, at, tls);
            if n == |chunks| || IsTrailing(chunks[n]) then d == states[n]
            else !d.state.Active? && !(chunks[n].LongPacket? && Gone(states[n].keys, chunks[n].space))
  {
    hide Refreshed, ChunksTaken, IsTaken, IsPassedOver;
    RefreshStaysInside(c, tls);
    states := ChunksInTurn(Refreshed(c, tls), chunks, from, at);
  }
}
