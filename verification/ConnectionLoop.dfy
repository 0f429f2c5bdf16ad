/**
 * The connection loop (connection.hpp) as the object it is: one class that owns the packet spaces, the recovery
 * records, the sending streams, the peer's path and the list of actions, and updates them in place. Each method
 * computes the function of the same purpose in `LoopSpec`, so everything proved about runs of those functions holds of
 * the object.
 */
module ConnectionLoop {
  import opened Common
  import opened Frames
  import opened LoopHistory
  import opened LoopInvariant
  import opened LoopRuns
  import opened LoopSpec
  import opened LoopState
  import opened Recovery
  import opened SentRecords
  import AckRanges
  import FC = FlowControl
  import PayloadBudget
  import PV = PathValidation
  import Rtt

  class Connection {
    const config: Config
    const streams: FC.StreamSendSet
    var state: State
    var books: Books
    var path: PV.Path
    var keys: Keys
    var confirmed: bool
    var dirty: bool
    var peer: Endpoint
    var rtt: Rtt.Estimate
    var lastActivity: Option<int>
    var closedAt: Option<int>
    var actions: seq<Action>
    ghost var past: seq<Moment>

    ghost function Abstract(): Conn
      reads this, streams
    {
      Conn(config, state, books, streams.Abstract(), path, keys, confirmed, dirty, peer, rtt, lastActivity, closedAt,
           actions, past)
    }

    ghost predicate Valid()
      reads this, streams
    {
      Inv(Abstract())
    }

    constructor (config: Config, peer: Endpoint)
      ensures Valid() && Abstract() == NewConn(config, peer) && fresh(streams)
    {
      hide Inv, FC.Flow.Valid;
      NewConnIsOk(config, peer);
      this.config, this.peer := config, peer;
      streams := new FC.StreamSendSet(config.streamMaxData, config.bidiLimit, config.uniLimit, config.connectionMax);
      state, books, path := Active, NewBooks, PV.NewPath(config.server, config.addressValidated);
      keys, confirmed, dirty := config.keys, false, true;
      rtt, lastActivity, closedAt, actions, past := Rtt.NoEstimate, None, None, [], [];
    }

    // -------------------------------------------------------------- actions and states

    method Emit(a: Action)
      requires Valid() && state.Active? && a.PacketEvent?
      modifies this, streams
      ensures Valid() && Abstract() == Act(old(Abstract()), a)
    {
      hide Inv;
      ActKeeps(Abstract(), a);
      actions, past := actions + [a], past + [Did(a)];
    }

    method ClearOne(s: Space)
      requires Valid()
      modifies this, streams
      ensures Valid() && Abstract() == ClearedSpace(old(Abstract()), s)
    {
      hide Inv, Cleared, Agree;
      InvMeans(Abstract());
      ClearedKeeps(Abstract(), s);
      books := ClearSpace(books, s);
    }

    method ClearSpaces()
      requires Valid()
      modifies this, streams
      ensures Valid() && Abstract() == old(Abstract()).(books := AllCleared(old(books)))
    {
      hide Inv, Cleared;
      ClearOne(InitialSpace);
      ClearOne(HandshakeSpace);
      ClearOne(AppSpace);
    }

    method EnterClosing(at: int)
      requires Valid()
      modifies this, streams
      ensures Valid() && Abstract() == ToClosing(old(Abstract()), at)
    {
      hide Inv, AllCleared;
      ToClosingKeeps(Abstract(), at);
      if !state.Active? {
        return;
      }
      ClearSpaces();
      state, closedAt := Closing, Some(at);
      actions, past := actions + [Close], past + [Did(Close)];
    }

    /** The guard tests for draining and closed only, so that on a closing connection it would close a second time. */
    method EnterDraining(at: int)
      requires Valid()
      modifies this, streams
      ensures Abstract() == ToDraining(old(Abstract()), at)
      ensures !old(state).Closing? ==> Valid()
    {
      hide Inv, AllCleared;
      if !state.Closing? {
        ToDrainingKeeps(Abstract(), at);
      }
      if state.Draining? || state.Closed? {
        return;
      }
      ClearSpaces();
      state, closedAt := Draining, Some(at);
      actions, past := actions + [Close], past + [Did(Close)];
    }

    method EnterClosed()
      requires Valid()
      modifies this, streams
      ensures Abstract() == ToClosed(old(Abstract()))
      ensures !old(state).Active? ==> Valid()
    {
      hide Inv, AllCleared;
      if !state.Active? {
        ToClosedKeeps(Abstract());
      }
      ClearSpaces();
      state, closedAt, actions := Closed, None, [];
    }

    // -------------------------------------------------------------- keys and path

    /** One step of the path, and the note of it. */
    method StepPath(e: PV.Event)
      requires Valid() && !e.Departure? && (Moves(OnPath(e)) ==> config.server)
      modifies this, streams
      ensures Valid() && Abstract() == PathStep(old(Abstract()), e)
    {
      hide Inv, PV.Step;
      PathStepKeeps(Abstract(), e);
      path, past := PV.Step(path, e), past + [OnPath(e)];
    }

    method PutQueue(s: Space, queue: seq<Frame>)
      requires Valid()
      modifies this, streams
      ensures Valid() && Abstract() == old(Abstract()).(books := WithQueue(old(books), s, queue))
    {
      hide Inv, WithQueue;
      QueueKeeps(Abstract(), s, queue);
      books := WithQueue(books, s, queue);
    }

    method QueueChallenge(tls: Option<Tls>)
      requires Valid()
      modifies this, streams
      ensures Valid() && Abstract() == ChallengeQueued(old(Abstract()), tls)
    {
      hide Inv, WithQueue, PathStep;
      ChallengeQueuedKeeps(Abstract(), tls);
      if path.pending.None? || path.queued || !(tls.Some? && tls.value.Ready() && keys.oneRttSend) {
        return;
      }
      PutQueue(AppSpace, books.Get(AppSpace).queue + [PathChallenge(path.pending.value)]);
      StepPath(PV.Queueing);
    }

    method ClearDiscarded()
      requires Valid()
      modifies this, streams
      ensures Valid() && Abstract() == old(Abstract()).(books := Swept(old(books), keys))
    {
      hide Inv, Cleared;
      if keys.Discarded(InitialSpace) {
        ClearOne(InitialSpace);
      }
      if keys.Discarded(HandshakeSpace) {
        ClearOne(HandshakeSpace);
      }
      if keys.Discarded(AppSpace) {
        ClearOne(AppSpace);
      }
    }

    method ObserveTls(tls: Option<Tls>)
      requires Valid()
      modifies this, streams
      ensures Valid() && Abstract() == Observed(old(Abstract()), tls)
    {
      hide Inv, Swept;
      ghost var c := Abstract();
      if tls.Some? {
        keys, confirmed := keys.Observe(tls.value), tls.value.confirmed;
      }
      dirty := false;
      OtherFieldsKeep(c, Abstract());
      ClearDiscarded();
    }

    method RefreshKeyLifecycle(tls: Option<Tls>)
      requires Valid()
      modifies this, streams
      ensures Valid() && Abstract() == Refreshed(old(Abstract()), tls)
    {
      hide Inv, Observed, PathStep, ChallengeQueued;
      if dirty {
        ObserveTls(tls);
      }
      StepPath(PV.Refresh(tls.Some? && tls.value.confirmed));
      QueueChallenge(tls);
    }

    method StartValidation(at: int, token: Option<PathToken>, tls: Option<Tls>)
      requires Valid() && config.server
      modifies this, streams
      ensures Valid() && Abstract() == ValidationStarted(old(Abstract()), at, token, tls)
    {
      hide Inv, PathStep, ChallengeQueued, ToClosing, WithoutChallenge, WithQueue;
      if path.pending.Some? && path.queued {
        var queue := RemoveChallenge(books.app.queue, path.pending.value);
        PutQueue(AppSpace, queue);
      }
      if token.None? {
        StepPath(PV.Unchallenged);
        EnterClosing(at);
      } else {
        StepPath(PV.NewPeer(token.value));
        QueueChallenge(tls);
      }
    }

    /** A packet from a new address moves the connection there, unless migration is disabled. */
    method AcceptPeer(from: Endpoint, at: int, token: Option<PathToken>, tls: Option<Tls>) returns (ok: bool)
      requires Valid() && state.Active?
      modifies this, streams
      ensures Valid() && Abstract() == PeerMet(old(Abstract()), from, at, token, tls)
      ensures ok == state.Active? == Acceptable(old(peer), from, config, token)
    {
      hide Inv, ValidationStarted, ToClosing;
      PeerMetKeeps(Abstract(), from, at, token, tls);
      if from != peer {
        if config.migrationDisabled {
          EnterClosing(at);
        } else {
          OtherFieldsKeep(Abstract(), Abstract().(peer := from));
          peer := from;
          if config.server {
            StartValidation(at, token, tls);
          }
        }
      }
      ok := state.Active?;
    }

    // -------------------------------------------------------------- frames of a packet

    method QueueRetirements(retired: seq<nat>)
      requires Valid()
      modifies this, streams
      ensures Valid() && Abstract() == RetirementsQueued(old(Abstract()), retired)
    {
      hide Inv;
      ghost var c, start := Abstract(), books.Get(AppSpace).queue;
      SameQueue(books, AppSpace);
      assert start + Retirements(retired[..0]) == start;
      for i := 0 to |retired|
        invariant Valid() && Abstract() == c.(books := WithQueue(c.books, AppSpace, start + Retirements(retired[..i])))
      {
        var f := RetireConnectionId(retired[i]);
        assert start + Retirements(retired[..i]) + [f] == start + Retirements(retired[..i + 1]);
        PutQueue(AppSpace, books.Get(AppSpace).queue + [f]);
      }
      assert retired[..|retired|] == retired;
    }

    method ApplyPathFrames(frames: seq<Frame>)
      requires Valid()
      modifies this, streams
      ensures Valid() && Abstract() == PathFrames(old(Abstract()), frames)
    {
      hide Inv, PathStep, WithQueue;
      for i := 0 to |frames|
        invariant Valid() && Abstract() == PathFrames(old(Abstract()), frames[..i])
      {
        assert frames[..i + 1][..i] == frames[..i];
        match frames[i]
        case PathChallenge(data) => PutQueue(AppSpace, books.Get(AppSpace).queue + [PathResponse(data)]);
        case PathResponse(data) => StepPath(PV.Response(data));
        case _ =>
      }
      assert frames[..|frames|] == frames;
    }

    /** Reports packets whose change of state is already in the books. */
    method Report(s: Space, numbers: seq<nat>, acked: bool)
      requires streams.Valid()
      modifies this`past, streams
      ensures streams.Valid() && Abstract() == TellStreams(old(Abstract()), s, numbers, acked)
    {
      hide FC.Flow.Valid, Resolved, RangesOf, Tolds;
      ResolvePackets(streams, books.ranges, s, numbers, acked);
      past := past + Tolds(s, numbers, acked);
    }

    method ApplyAckFrame(s: Space, ack: AckFrame, at: int)
      requires Valid() && state.Active?
      modifies this, streams
      ensures Valid() && Abstract() == AckTaken(old(Abstract()), s, ack, at)
    {
      hide Inv, FC.Flow.Valid, TellStreams, AckApplied, Agree, SampleOf, Rtt.Update, AckDelay;
      ghost var a := Abstract();
      InvMeans(a);
      AckTakenKeeps(a, s, ack, at);
      AgreeOrders(books);
      var c, acked, lost := ApplyAck(books, s, ack);
      var sample := SamplePacket(books.recovery, s, acked);
      if sample.Some? && sample.value.sentAt <= at {
        var delay := if s.AppSpace? then AckDelay(ack.delay, config.ackDelayExponent) else 0;
        rtt := Rtt.Update(rtt, Rtt.Sample(at - sample.value.sentAt, delay, config.maxAckDelay, confirmed));
      }
      books := c;
      assert Abstract() == a.(books := c, rtt := Measured(a, s, acked, ack, at));
      Report(s, acked, true);
      Report(s, lost, false);
    }

    method ApplyAckFrames(s: Space, frames: seq<Frame>, at: int)
      requires Valid() && state.Active?
      modifies this, streams
      ensures Valid() && Abstract() == AckFrames(old(Abstract()), s, frames, at)
    {
      hide Inv, AckTaken;
      ghost var a := Abstract();
      for i := 0 to |frames|
        invariant Valid() && Abstract() == AckFrames(a, s, frames[..i], at) && state.Active?
      {
        assert frames[..i + 1][..i] == frames[..i];
        AckFramesKeep(a, s, frames[..i + 1], at);
        if frames[i].Ack? {
          ApplyAckFrame(s, frames[i].ack, at);
        }
      }
      assert frames[..|frames|] == frames;
    }

    method ApplyCreditFrames(frames: seq<WireFrame>)
      requires Valid()
      modifies this, streams
      ensures Valid() && Abstract() == CreditFrames(old(Abstract()), frames)
    {
      hide Inv, FC.RaiseStreamData, FC.RaiseData, FC.RaiseStreams, FC.Flow.Valid;
      ghost var a := Abstract();
      for i := 0 to |frames|
        invariant Valid() && Abstract() == CreditFrames(a, frames[..i])
      {
        assert frames[..i + 1][..i] == frames[..i];
        CreditFramesKeep(a, frames[..i + 1]);
        InvMeans(Abstract());
        match frames[i]
        case MaxStreamData(id, maximum) =>
          streams.UpdateMaxStreamData(id, maximum);
          past := past + [OnStreams(FC.StreamDataGrant(id, maximum))];
        case MaxData(maximum) =>
          streams.UpdateMaxData(maximum);
          past := past + [OnStreams(FC.DataGrant(maximum))];
        case MaxStreams(direction, maximum) =>
          streams.UpdateMaxStreams(direction, maximum);
          past := past + [OnStreams(FC.StreamsGrant(direction, maximum))];
        case _ =>
      }
      assert frames[..|frames|] == frames;
    }

    /** Fails at the first RESET_STREAM the receiving streams refuse; what came before it has taken effect. */
    method ApplyStreamControlFrames(frames: seq<Frame>, refused: set<nat>) returns (ok: bool)
      requires Valid()
      modifies this, streams
      ensures Valid() && Abstract() == ControlTaken(old(Abstract()), frames, refused)
      ensures ok == (FirstReset(frames, refused, 0) == |frames|)
    {
      hide Inv, FC.Halt, FC.Flow.Valid;
      ghost var a := Abstract();
      for i := 0 to |frames|
        invariant Valid() && Abstract() == StopFrames(a, frames[..i])
        invariant FirstReset(frames, refused, 0) == FirstReset(frames, refused, i)
      {
        assert frames[..i + 1][..i] == frames[..i];
        if frames[i].ResetStream? && i in refused {
          return false;
        }
        StopFramesKeep(a, frames[..i + 1]);
        InvMeans(Abstract());
        if frames[i].StopSending? {
          streams.StopStream(frames[i].streamId, frames[i].errorCode);
          past := past + [OnStreams(FC.Halted(frames[i].streamId, frames[i].errorCode))];
        }
      }
      return true;
    }

    /** Fails at the first CRYPTO frame TLS refuses; without an adapter nothing is delivered. */
    method ReceiveCrypto(frames: seq<Frame>, tls: Option<Tls>, refused: set<nat>) returns (ok: bool)
      requires Valid()
      modifies this, streams
      ensures Valid() && Abstract() == CryptoTaken(old(Abstract()), frames, tls, refused)
      ensures ok == (tls.None? || FirstCrypto(frames, refused, 0) == |frames|)
    {
      hide Inv;
      ghost var a := Abstract();
      OtherFieldsKeep(a, CryptoTaken(a, frames, tls, refused));
      if tls.None? {
        return true;
      }
      for i := 0 to |frames|
        invariant Abstract() == a.(dirty := a.dirty || HasCrypto(frames[..i]))
        invariant FirstCrypto(frames, refused, 0) == FirstCrypto(frames, refused, i)
      {
        assert frames[..i + 1] == frames[..i] + [frames[i]];
        if frames[i].Crypto? {
          if i in refused {
            return false;
          }
          dirty := true;
          assert frames[..i + 1][i].Crypto?;
        }
        HasCryptoGrows(frames, i);
      }
      return true;
    }

    method DeliveryFails(frames: seq<Frame>, refused: set<nat>) returns (fails: bool)
      ensures fails == StreamRefused(frames, refused)
    {
      for i := 0 to |frames|
        invariant forall k | 0 <= k < i :: !(frames[k].Stream? && k in refused)
      {
        if frames[i].Stream? && i in refused {
          return true;
        }
      }
      return false;
    }

    method DeliverFrames(p: Parsed, at: int, env: PacketEnv)
      requires Valid() && state.Active?
      modifies this, streams
      ensures Valid() && Abstract() == Delivered(old(Abstract()), p, at, env)
    {
      hide Inv, ControlTaken, CryptoTaken, Refreshed, ToClosing, FirstReset, FirstCrypto, StreamRefused;
      StateStays(Abstract(), p.frames, env);
      var ok := ApplyStreamControlFrames(p.frames, env.refused);
      if ok {
        ok := ReceiveCrypto(p.frames, env.before, env.refused);
        if ok {
          RefreshKeyLifecycle(env.after);
          var fails := DeliveryFails(p.frames, env.refused);
          ok := !fails;
        }
      }
      if !ok {
        EnterClosing(at);
        return;
      }
      Emit(PacketEvent(p.space, p.number));
    }

    method ApplyRecords(p: Parsed, retired: seq<nat>, at: int)
      requires Valid() && state.Active?
      modifies this, streams
      ensures Valid() && Abstract() == Recorded(old(Abstract()), p, retired, at)
    {
      hide Inv, RetirementsQueued, PathFrames, AckFrames, CreditFrames;
      RecordedStays(Abstract(), p, retired, at);
      QueueRetirements(retired);
      ApplyPathFrames(p.frames);
      ApplyAckFrames(p.space, p.frames, at);
      ApplyCreditFrames(p.frames);
    }

    method ApplyFrames(p: Parsed, at: int, env: PacketEnv)
      requires Valid() && state.Active?
      modifies this, streams
      ensures Valid() && Abstract() == FramesTaken(old(Abstract()), p, at, env)
    {
      hide Inv, AllAllowed, PeerCloses, ToClosing, ToDraining, Recorded, Delivered;
      var allowed := CheckFrames(config.server, p.space, p.frames);
      if !allowed {
        EnterClosing(at);
        return;
      }
      var closed := HasPeerClose(p.frames);
      if closed {
        EnterDraining(at);
        return;
      }
      if env.retired.None? {
        EnterClosing(at);
        return;
      }
      RecordedKeeps(Abstract(), p, env.retired.value, at);
      ApplyRecords(p, env.retired.value, at);
      DeliverFrames(p, at, env);
    }

    // -------------------------------------------------------------- receiving

    method ProcessParsedPacket(p: Parsed, from: Endpoint, size: u64, at: int, env: PacketEnv)
      requires Valid() && state.Active?
      modifies this, streams
      ensures Valid() && Abstract() == Processed(old(Abstract()), p, from, size, at, env)
    {
      hide Inv, PeerMet, FramesTaken, PathStep, WithReceived;
      ghost var a := Abstract();
      ReceivedKeeps(a, p.space, p.number);
      var isNew := p.number !in books.Get(p.space).received;
      books := WithReceived(books, p.space, p.number);
      if !isNew {
        SameBooks(a.books, p.space, p.number);
        return;
      }
      past := past + [Saw(p.space, p.number)];
      var accepted := AcceptPeer(from, at, env.token, env.before);
      if !accepted {
        return;
      }
      ghost var c1 := Abstract();
      CountReceivedKeeps(c1, size, at);
      StepPath(PV.Arrival(size));
      lastActivity := Some(at);
      assert Abstract() == CountReceived(c1, size, at);
      ApplyFrames(p, at, env);
    }

    method OnDatagram(d: Inbound, from: Endpoint, at: int, tls: Option<Tls>)
      requires Valid()
      modifies this, streams
      ensures Valid() && Abstract() == DatagramTaken(old(Abstract()), d, from, at, tls)
    {
      hide Inv, Refreshed, ChunksTaken, Processed, ClearedSpace, ToClosing, ToDraining;
      if !state.Active? {
        return;
      }
      RefreshedKeeps(Abstract(), tls);
      RefreshKeyLifecycle(tls);
      match d
      case LongDatagram(chunks) => OnLongDatagram(chunks, from, at);
      case ShortDatagram(size, parsed, statelessReset, env) =>
        if keys.Discarded(AppSpace) {
          ClearOne(AppSpace);
        } else if parsed.None? {
          if statelessReset {
            EnterDraining(at);
          } else {
            EnterClosing(at);
          }
        } else {
          ProcessParsedPacket(PacketIn(AppSpace, parsed.value), from, size, at, env);
        }
    }

    /** The packets coalesced into a datagram, one after the other for as long as the connection is active. */
    method OnLongDatagram(chunks: seq<Chunk>, from: Endpoint, at: int)
      requires Valid() && state.Active?
      modifies this, streams
      ensures Valid() && Abstract() == ChunksTaken(old(Abstract()), chunks, from, at)
    {
      hide Inv, Processed, Cleared, ToClosing;
      ghost var a := Abstract();
      assert chunks[0..] == chunks;
      for i := 0 to |chunks|
        invariant Valid() && state.Active?
        invariant ChunksTaken(a, chunks, from, at) == ChunksTaken(Abstract(), chunks[i..], from, at)
      {
        assert chunks[i..][0] == chunks[i] && chunks[i..][1..] == chunks[i + 1..];
        match chunks[i]
        case Unreadable(onlyZeros) =>
          if !onlyZeros {
            EnterClosing(at);
          }
          return;
        case BadHeader =>
          EnterClosing(at);
          return;
        case LongPacket(space, size, parsed, env) =>
          if keys.Discarded(space) {
            ClearOne(space);
            continue;
          }
          if parsed.None? {
            EnterClosing(at);
            return;
          }
          ProcessParsedPacket(PacketIn(space, parsed.value), from, size, at, env);
          if !state.Active? {
            return;
          }
          if !env.protectorsRefreshed {
            EnterClosing(at);
            return;
          }
      }
    }

    // -------------------------------------------------------------- sending

    /** A packet the limit allows: number, records, counters and the action, all at once. */
    method SendPacket(s: Space, at: int, frames: seq<Frame>, ackEliciting: bool, size: u64, taken: nat)
      requires Valid() && state.Active? && PV.Allows(path, size) && taken <= |books.Get(s).queue|
      modifies this, streams
      ensures Valid() && Abstract() == PacketSent(old(Abstract()), s, at, frames, ackEliciting, size, taken)
    {
      hide Inv, Sent, WithQueue, PV.Allows, PV.Emitted, Agree;
      InvMeans(Abstract());
      PacketSentKeeps(Abstract(), s, at, frames, ackEliciting, size, taken);
      var number, queue := books.Get(s).next, books.Get(s).queue[taken..];
      var a := Datagram(s, number, frames, size);
      books := RecordSent(books, s, at, ackEliciting, frames);
      books := WithQueue(books, s, queue);
      path := PV.Emitted(path, size);
      actions, past := actions + [a], past + [Did(a)];
    }

    method FlushSpace(s: Space, at: int, tls: Option<Tls>, env: SendEnv)
      requires Valid() && state.Active?
      modifies this, streams
      ensures Valid() && Abstract() == SpaceFlushed(old(Abstract()), s, at, tls, env)
    {
      hide Inv, ClearedSpace, ToClosing, PacketSent, PayloadBudget.Front, PayloadBudget.Sound, PV.Allows, AckEliciting;
      SpaceFlushedKeeps(Abstract(), s, at, tls, env);
      var queue := books.Get(s).queue;
      if queue == [] {
        return;
      }
      if keys.Discarded(s) {
        ClearOne(s);
        return;
      }
      if !env.canSend || (s.AppSpace? && !env.pacingAllows) {
        return;
      }
      if s.AppSpace? && !(tls.Some? && tls.value.Ready() && keys.oneRttSend) {
        EnterClosing(at);
        return;
      }
      var taken, ok := PayloadBudget.SelectFrames(queue, config.maxPayload);
      if !ok || taken == 0 || env.assembled.None? {
        EnterClosing(at);
        return;
      }
      if !PV.Allows(path, env.assembled.value) {
        return;
      }
      SendPacket(s, at, queue[..taken], AckEliciting(queue[..taken]), env.assembled.value, taken);
      lastActivity := Some(at);
    }

    /** Queues what TLS has to say; a failure closes the connection at the time read from the clock. */
    method PumpCrypto(pump: Pump, clock: int)
      requires Valid()
      modifies this, streams
      ensures Valid() && Abstract() == Pumped(old(Abstract()), pump, clock)
    {
      hide Inv, ToClosing, WithQueue;
      if pump.NoAdapter? {
        return;
      }
      if pump.AdvanceFailed? {
        EnterClosing(clock);
        return;
      }
      OtherFieldsKeep(Abstract(), Abstract().(dirty := true));
      dirty := true;
      ghost var a := Abstract();
      var items := pump.items;
      assert items[0..] == items;
      for i := 0 to |items|
        invariant Valid() && ItemsPumped(a, items, clock) == ItemsPumped(Abstract(), items[i..], clock)
      {
        var item := items[i];
        assert items[i..][0] == item && items[i..][1..] == items[i + 1..];
        if keys.Discarded(item.space) {
          continue;
        }
        if item.frames.None? {
          EnterClosing(clock);
          return;
        }
        PutQueue(item.space, books.Get(item.space).queue + item.frames.value);
      }
    }

    method FlushSpaces(at: int, env: FlushEnv)
      requires Valid()
      modifies this, streams
      ensures Valid() && Abstract() == SpacesFlushed(old(Abstract()), at, env)
    {
      hide Inv, SpaceFlushed;
      if !state.Active? {
        return;
      }
      FlushSpace(InitialSpace, at, env.after, env.initial);
      if !state.Active? {
        return;
      }
      FlushSpace(HandshakeSpace, at, env.after, env.handshake);
      if !state.Active? {
        return;
      }
      FlushSpace(AppSpace, at, env.after, env.application);
    }

    method Flush(at: int, env: FlushEnv)
      requires Valid()
      modifies this, streams
      ensures Valid() && Abstract() == Flushed(old(Abstract()), at, env)
    {
      hide Inv, Refreshed, Pumped, SpacesFlushed;
      if !state.Active? {
        return;
      }
      RefreshKeyLifecycle(env.before);
      PumpCrypto(env.pump, env.clock);
      RefreshKeyLifecycle(env.after);
      FlushSpaces(at, env);
    }

    method Acknowledge(s: Space, at: int, tls: Option<Tls>, assembled: Option<u64>)
      requires Valid()
      modifies this, streams
      ensures Valid() && Abstract() == AckSent(old(Abstract()), s, at, tls, assembled)
    {
      hide Inv, Refreshed, ClearedSpace, ToClosing, PacketSent, PV.Allows, AckFor, IsAckFor, Agree, FC.Flow.Valid;
      if !state.Active? {
        return;
      }
      RefreshedKeeps(Abstract(), tls);
      RefreshKeyLifecycle(tls);
      if keys.Discarded(s) {
        ClearOne(s);
        return;
      }
      var received := books.Get(s).received;
      if received == {} {
        return;
      }
      InvMeans(Abstract());
      ReceivedFit(books, s);
      var ack := AckRanges.CompressAck(received, 0);
      AckIsUnique(ack, received);
      if assembled.None? {
        EnterClosing(at);
        return;
      }
      if !PV.Allows(path, assembled.value) {
        return;
      }
      SendPacket(s, at, [Ack(ack)], false, assembled.value, 0);
    }

    // -------------------------------------------------------------- timers

    method DeclareLosses(s: Space, now: int) returns (lost: seq<nat>, deadline: Option<int>)
      requires Valid() && state.Active?
      modifies this, streams
      ensures Valid() && Abstract() == LossesDeclared(old(Abstract()), s, now)
      ensures var c := old(Abstract());
              && lost == LossesDue(c, s, now)
              && deadline == NextDeadline(c.books, s, LossDelayOf(c), ProbeDelayOf(c, s), now)
    {
      hide Inv, FC.Flow.Valid, TellStreams, TimerLosses, NextDeadline, Agree, Retire, LossDelay, ProbeDelay;
      ghost var a := Abstract();
      InvMeans(a);
      LossesDeclaredKeeps(a, s, now);
      var lossDelay, probe := LossDelay(rtt), ProbeDelay(rtt, s, confirmed, config.maxAckDelay);
      books, lost, deadline := OnTimer(books, s, lossDelay, probe, now);
      Report(s, lost, false);
    }

    /** `on_recovery_timer`. */
    method OnRecoveryTimer(s: Space, now: int, tls: Option<Tls>) returns (lost: seq<nat>, deadline: Option<int>)
      requires Valid()
      modifies this, streams
      ensures Valid() && Abstract() == TimerFired(old(Abstract()), s, now, tls)
      ensures (lost, deadline) == TimerResult(old(Abstract()), s, now, tls)
    {
      hide Inv, Refreshed, ClearedSpace, LossesDeclared, LossesDue, NextDeadline;
      lost, deadline := [], None;
      if !state.Active? {
        return;
      }
      RefreshedKeeps(Abstract(), tls);
      RefreshKeyLifecycle(tls);
      if keys.Discarded(s) {
        ClearOne(s);
        return;
      }
      lost, deadline := DeclareLosses(s, now);
    }

    /** The earliest of the three spaces' timers. */
    method NextRecoveryTimer(tls: Option<Tls>) returns (next: Option<Alarm>)
      requires Valid()
      modifies this, streams
      ensures Valid() && Abstract() == NextTimerAsked(old(Abstract()), tls) && next == NextTimer(old(Abstract()), tls)
    {
      hide Inv, Refreshed, TimerOf;
      next := None;
      if !state.Active? {
        return;
      }
      RefreshKeyLifecycle(tls);
      next := Sooner(next, InitialSpace, TimerOf(books, keys, rtt, confirmed, config.maxAckDelay, InitialSpace));
      next := Sooner(next, HandshakeSpace, TimerOf(books, keys, rtt, confirmed, config.maxAckDelay, HandshakeSpace));
      next := Sooner(next, AppSpace, TimerOf(books, keys, rtt, confirmed, config.maxAckDelay, AppSpace));
    }

    method NextLifecycleTimer(now: int) returns (timer: Option<LifecycleTimer>)
      requires Valid()
      modifies this, streams
      ensures Valid() && Abstract() == LifecycleAsked(old(Abstract()), now) && timer == Lifecycle(old(Abstract()), now)
    {
      hide Inv;
      LifecycleFiredKeeps(Abstract(), IdleTimer, now);
      match state
      case Closed =>
        return None;
      case Active =>
        if config.idleTimeout <= 0 {
          return None;
        }
        if lastActivity.None? {
          lastActivity := Some(now);
        }
        return Some(LifecycleTimer(IdleTimer, lastActivity.value + config.idleTimeout));
      case _ =>
        if closedAt.None? {
          closedAt := Some(now);
        }
        return Some(LifecycleTimer(KindOf(state), closedAt.value + config.drainTimeout));
    }

    method OnLifecycleTimer(kind: TimerKind, now: int)
      requires Valid()
      modifies this, streams
      ensures Valid() && Abstract() == LifecycleFired(old(Abstract()), kind, now)
    {
      hide Inv, ToClosing, ToClosed;
      LifecycleFiredKeeps(Abstract(), kind, now);
      var timer := NextLifecycleTimer(now);
      if timer.None? || timer.value.kind != kind || now < timer.value.deadline {
        return;
      }
      if kind.IdleTimer? && state.Active? {
        EnterClosing(now);
        return;
      }
      if (kind.ClosingTimer? && state.Closing?) || (kind.DrainingTimer? && state.Draining?) {
        EnterClosed();
      }
    }

    // -------------------------------------------------------------- the driver's other calls

    method DiscardPacketSpace(s: Space)
      requires Valid()
      modifies this, streams
      ensures Valid() && Abstract() == SpaceDiscarded(old(Abstract()), s)
    {
      hide Inv, ClearedSpace;
      OtherFieldsKeep(Abstract(), Abstract().(keys := keys.Discard(s)));
      keys := keys.Discard(s);
      ClearOne(s);
    }

    /** Replaces whatever the space had queued. */
    method QueueFrames(s: Space, frames: seq<Frame>)
      requires Valid()
      modifies this, streams
      ensures Valid() && Abstract() == FramesQueued(old(Abstract()), s, frames)
    {
      hide Inv, WithQueue;
      if state.Active? {
        PutQueue(s, frames);
      }
    }

    method AppendStreamData(id: u64, data: seq<byte>) returns (ok: bool)
      requires Valid()
      modifies this, streams
      ensures Valid() && Abstract() == DataAppended(old(Abstract()), id, data)
      ensures ok == (state.Active? && FC.Accepts(old(Abstract()).flow, id, data))
    {
      hide Inv, FC.Write, FC.Flow.Valid, FC.StateFor, FC.MayOpen;
      InvMeans(Abstract());
      StreamCallsKeep(Abstract(), id, data, [], 0, 0, 0);
      if !state.Active? {
        return false;
      }
      ok := streams.AppendTo(id, data);
      past := past + [OnStreams(FC.Writing(id, data))];
    }

    method ScheduleStreamFrames(ids: seq<nat>, maxFrames: nat, maxSize: nat) returns (frames: seq<Frame>)
      requires Valid()
      modifies this, streams
      ensures old(Abstract()).flow.Valid()
      ensures Valid() && Abstract() == Scheduled(old(Abstract()), ids, maxFrames, maxSize)
      ensures frames == if state.Active? then FC.Schedule(old(Abstract()).flow, ids, maxFrames, maxSize).1 else []
    {
      hide Inv, FC.Schedule, FC.Flow.Valid;
      InvMeans(Abstract());
      StreamCallsKeep(Abstract(), 0, [], ids, maxFrames, maxSize, 0);
      if !state.Active? {
        return [];
      }
      frames := streams.ScheduleStreamFrames(ids, maxFrames, maxSize);
      past := past + [OnStreams(FC.Pass(ids, maxFrames, maxSize))];
    }

    method UpdateMaxData(limit: u64)
      requires Valid()
      modifies this, streams
      ensures Valid() && Abstract() == DataLimitRaised(old(Abstract()), limit)
    {
      hide Inv, FC.RaiseData, FC.Flow.Valid;
      InvMeans(Abstract());
      StreamCallsKeep(Abstract(), 0, [], [], 0, 0, limit);
      streams.UpdateMaxData(limit);
      past := past + [OnStreams(FC.DataGrant(limit))];
    }

    method UpdateRtt(sample: Rtt.Sample)
      requires Valid()
      modifies this, streams
      ensures Valid() && Abstract() == old(Abstract()).(rtt := Rtt.Update(old(rtt), sample))
    {
      hide Inv, Rtt.Update;
      OtherFieldsKeep(Abstract(), Abstract().(rtt := Rtt.Update(rtt, sample)));
      rtt := Rtt.Update(rtt, sample);
    }

    method DrainActions() returns (drained: seq<Action>)
      requires Valid()
      modifies this, streams
      ensures Valid() && Abstract() == ActionsTaken(old(Abstract())) && drained == old(actions)
    {
      hide Inv;
      ActionsTakenKeeps(Abstract());
      drained := actions;
      actions, past := [], past + [Handed(actions)];
    }
  }

  // ---------------------------------------------------------------- small facts about values

  lemma SameQueue(b: Books, s: Space)
    ensures WithQueue(b, s, b.Get(s).queue) == b
  {
  }

  lemma AgreeOrders(b: Books)
    requires Agree(b)
    ensures IncreasingRec(b.recovery)
  {
  }

  lemma HasCryptoGrows(frames: seq<Frame>, i: nat)
    requires i < |frames|
    ensures HasCrypto(frames[..i + 1]) <==> HasCrypto(frames[..i]) || frames[i].Crypto?
  {
    assert forall k | 0 <= k < i :: frames[..i + 1][k] == frames[..i][k];
    assert frames[..i + 1][i] == frames[i];
  }

  lemma ReceivedFit(b: Books, s: Space)
    requires ReceivedFits(b)
    ensures forall n | n in b.Get(s).received :: n <= U64_MAX
  {
  }

  lemma AckIsUnique(ack: AckFrame, received: set<nat>)
    requires IsAckFor(ack, received)
    ensures ack == AckFor(received)
  {
    AckRanges.OneFramePerSet(ack, AckFor(received));
  }

  lemma StateStays(c: Conn, frames: seq<Frame>, env: PacketEnv)
    requires Inv(c)
    ensures ControlTaken(c, frames, env.refused).state == c.state
    ensures var d := CryptoTaken(ControlTaken(c, frames, env.refused), frames, env.before, env.refused);
            d.state == c.state && Inv(d) && Refreshed(d, env.after).state == c.state
  {
    hide Inv, Refreshed, StopFrames, FirstReset, FirstCrypto, HasCrypto;
    StopFramesKeep(c, frames[..FirstReset(frames, env.refused, 0)]);
    var c1 := ControlTaken(c, frames, env.refused);
    var c2 := CryptoTaken(c1, frames, env.before, env.refused);
    OtherFieldsKeep(c1, c2);
    RefreshedKeeps(c2, env.after);
  }

  lemma RecordedStays(c: Conn, p: Parsed, retired: seq<nat>, at: int)
    requires Inv(c)
    ensures PathFrames(RetirementsQueued(c, retired), p.frames).state == c.state
  {
    hide Inv, PathFrames, Enqueue;
    EnqueueKeeps(c, AppSpace, Retirements(retired));
    PathFramesKeep(RetirementsQueued(c, retired), p.frames);
  }

  // ---------------------------------------------------------------- whole runs

  /** One call of the driver. */
  method Perform(c: Connection, call: Call)
    requires c.Valid()
    modifies c, c.streams
    ensures old(c.Abstract()).flow.Valid()
    ensures c.Valid() && c.Abstract() == Step(old(c.Abstract()), call)
  {
    hide Inv, Flushed, AckSent, DatagramTaken, TimerFired, LifecycleFired, LifecycleAsked, NextTimerAsked,
      SpaceDiscarded, FramesQueued, DataAppended, Scheduled, DataLimitRaised, ActionsTaken, FC.Flow.Valid;
    InvMeans(c.Abstract());
    match call
    case CallFlush(at, env) => c.Flush(at, env);
    case CallAcknowledge(space, at, tls, assembled) => c.Acknowledge(space, at, tls, assembled);
    case CallDatagram(inbound, from, at, tls) => c.OnDatagram(inbound, from, at, tls);
    case CallRecoveryTimer(space, at, tls) => var lost, deadline := c.OnRecoveryTimer(space, at, tls);
    case CallLifecycleTimer(kind, at) => c.OnLifecycleTimer(kind, at);
    case CallNextRecoveryTimer(tls) => var next := c.NextRecoveryTimer(tls);
    case CallNextLifecycleTimer(at) => var timer := c.NextLifecycleTimer(at);
    case _ => PerformSmall(c, call);
  }

  predicate IsSmall(call: Call) {
    || call.CallDiscard? || call.CallQueue? || call.CallAppend? || call.CallSchedule? || call.CallMaxData?
    || call.CallRttSample? || call.CallDrain?
  }

  /** The calls that concern streams, queues and settings. */
  method PerformSmall(c: Connection, call: Call)
    requires c.Valid() && IsSmall(call)
    modifies c, c.streams
    ensures old(c.Abstract()).flow.Valid()
    ensures c.Valid() && c.Abstract() == Step(old(c.Abstract()), call)
  {
    hide Inv, Flushed, AckSent, DatagramTaken, TimerFired, LifecycleFired, LifecycleAsked, NextTimerAsked,
      SpaceDiscarded, FramesQueued, DataAppended, Scheduled, DataLimitRaised, ActionsTaken, FC.Flow.Valid, FC.Schedule,
      FC.Accepts;
    InvMeans(c.Abstract());
    match call
    case CallDiscard(space) => c.DiscardPacketSpace(space);
    case CallQueue(space, frames) => c.QueueFrames(space, frames);
    case CallAppend(id, data) => var ok := c.AppendStreamData(id, data);
    case CallSchedule(ids, maxFrames, maxSize) => var frames := c.ScheduleStreamFrames(ids, maxFrames, maxSize);
    case CallMaxData(limit) => c.UpdateMaxData(limit);
    case CallRttSample(sample) => c.UpdateRtt(sample);
    case CallDrain => var drained := c.DrainActions();
  }

  /** Any calls in any order: the object goes exactly where the run of the calls leads. */
  method Drive(c: Connection, calls: seq<Call>)
    requires c.Valid()
    modifies c, c.streams
    ensures c.Valid() && c.Abstract() == Run(old(c.Abstract()), calls)
  {
    hide Inv, Step;
    ghost var a := c.Abstract();
    for i := 0 to |calls|
      invariant c.Valid() && c.Abstract() == Run(a, calls[..i])
    {
      assert calls[..i + 1][..i] == calls[..i];
      Perform(c, calls[i]);
    }
    assert calls[..|calls|] == calls;
  }

  /**
   * With the TLS state unchanged, firing the next recovery timer for as long as it is due comes to an end, and then
   * every timer that is left lies in the future.
   */
  method FireDueTimers(c: Connection, now: int, tls: Option<Tls>) returns (ghost calls: seq<Call>)
    requires c.Valid()
    modifies c, c.streams
    ensures c.Valid() && c.Abstract() == Run(old(c.Abstract()), calls)
    ensures forall call | call in calls :: call.CallNextRecoveryTimer? || call.CallRecoveryTimer?
    ensures c.state.Active? ==>
              forall s :: TimerIn(c.Abstract(), s).Some? ==> now < TimerIn(c.Abstract(), s).value.deadline
  {
    hide Inv, Run, Step, TimerFired, NextTimerAsked, NextTimer, TimerIn, Waiting;
    ghost var start := c.Abstract();
    calls := [];
    RunEmpty(start);
    var next := Ask(c, tls, start, calls);
    calls := calls + [CallNextRecoveryTimer(tls)];
    while next.Some? && next.value.deadline <= now
      invariant c.Valid() && c.Abstract() == Run(start, calls)
      invariant forall call | call in calls :: call.CallNextRecoveryTimer? || call.CallRecoveryTimer?
      invariant if c.state.Active? then !c.dirty && IsNext(c.Abstract(), next) else next.None?
      decreases Waiting(c.books.recovery)
    {
      FiringLowersWaiting(c.Abstract(), next.value.space, now, tls);
      Fire(c, next.value.space, now, tls, start, calls);
      calls := calls + [CallRecoveryTimer(next.value.space, now, tls)];
      AskingSettles(c.Abstract(), tls);
      next := Ask(c, tls, start, calls);
      calls := calls + [CallNextRecoveryTimer(tls)];
    }
  }

  method Ask(c: Connection, tls: Option<Tls>, ghost start: Conn, ghost calls: seq<Call>) returns (next: Option<Alarm>)
    requires c.Valid() && Inv(start) && c.Abstract() == Run(start, calls)
    modifies c, c.streams
    ensures c.Valid() && c.Abstract() == NextTimerAsked(old(c.Abstract()), tls)
    ensures c.Abstract() == Run(start, calls + [CallNextRecoveryTimer(tls)])
    ensures next == NextTimer(old(c.Abstract()), tls)
    ensures if c.state.Active? then !c.dirty && IsNext(c.Abstract(), next) else next.None?
  {
    hide Inv, Run, NextTimerAsked, NextTimer, IsNext;
    RunGrows(start, calls, CallNextRecoveryTimer(tls));
    AskingSettles(c.Abstract(), tls);
    next := c.NextRecoveryTimer(tls);
  }

  method Fire(c: Connection, s: Space, now: int, tls: Option<Tls>, ghost start: Conn, ghost calls: seq<Call>)
    requires c.Valid() && Inv(start) && c.Abstract() == Run(start, calls)
    modifies c, c.streams
    ensures c.Valid() && c.Abstract() == TimerFired(old(c.Abstract()), s, now, tls)
    ensures c.Abstract() == Run(start, calls + [CallRecoveryTimer(s, now, tls)])
  {
    hide Inv, Run, TimerFired, TimerResult;
    RunGrows(start, calls, CallRecoveryTimer(s, now, tls));
    var lost, deadline := c.OnRecoveryTimer(s, now, tls);
  }
}
