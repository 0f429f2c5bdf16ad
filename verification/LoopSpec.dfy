/**
 * The connection loop (connection.hpp) as a function: a connection is a value, each call of its driver maps one to the
 * next, and a run is a list of calls. Whatever the loop asks of TLS, of congestion control and pacing, of packet
 * assembly and parsing and of the receiving streams comes with the call.
 */
module LoopSpec {
  import opened Common
  import opened Frames
  import opened LoopHistory
  import opened LoopState
  import opened Recovery
  import opened SentRecords
  import AckRanges
  import FC = FlowControl
  import PayloadBudget
  import PV = PathValidation
  import Rtt

  datatype Conn = Conn(
    config: Config, state: State, books: Books, flow: FC.Flow, path: PV.Path, keys: Keys, confirmed: bool, dirty: bool,
    peer: Endpoint, rtt: Rtt.Estimate, lastActivity: Option<int>, closedAt: Option<int>, actions: seq<Action>,
    past: seq<Moment>)

  function NewConn(config: Config, peer: Endpoint): Conn {
    Conn(config, Active, NewBooks,
         FC.NewFlow(config.streamMaxData, config.bidiLimit, config.uniLimit, config.connectionMax),
         PV.NewPath(config.server, config.addressValidated), config.keys, false, true, peer, Rtt.NoEstimate,
         None, None, [], [])
  }

  // ---------------------------------------------------------------- actions and states

  function Act(c: Conn, a: Action): Conn {
    c.(actions := c.actions + [a], past := c.past + [Did(a)])
  }

  function AllCleared(b: Books): Books {
    Cleared(Cleared(Cleared(b, InitialSpace), HandshakeSpace), AppSpace)
  }

  function ToClosing(c: Conn, at: int): Conn {
    if !c.state.Active? then c
    else Act(c.(state := Closing, closedAt := Some(at), books := AllCleared(c.books)), Close)
  }

  /** The guard lets a closing connection through, which no caller is. */
  function ToDraining(c: Conn, at: int): Conn {
    if c.state.Draining? || c.state.Closed? then c
    else Act(c.(state := Draining, closedAt := Some(at), books := AllCleared(c.books)), Close)
  }

  function ToClosed(c: Conn): Conn {
    c.(state := Closed, closedAt := None, books := AllCleared(c.books), actions := [])
  }

  function ClearedSpace(c: Conn, s: Space): Conn {
    c.(books := Cleared(c.books, s))
  }

  // ---------------------------------------------------------------- keys and path

  function PathStep(c: Conn, e: PV.Event): Conn {
    c.(path := PV.Step(c.path, e), past := c.past + [OnPath(e)])
  }

  predicate SendAllowed(c: Conn, tls: Option<Tls>) {
    tls.Some? && tls.value.Ready() && c.keys.oneRttSend
  }

  function ChallengeQueued(c: Conn, tls: Option<Tls>): Conn {
    if c.path.pending.None? || c.path.queued || !SendAllowed(c, tls) then c
    else PathStep(c.(books := Enqueue(c.books, AppSpace, [PathChallenge(c.path.pending.value)])), PV.Queueing)
  }

  function Observed(c: Conn, tls: Option<Tls>): Conn {
    var keys := if tls.Some? then c.keys.Observe(tls.value) else c.keys;
    c.(keys := keys, confirmed := if tls.Some? then tls.value.confirmed else c.confirmed,
       books := Swept(c.books, keys), dirty := false)
  }

  /** `refresh_key_lifecycle`. */
  function Refreshed(c: Conn, tls: Option<Tls>): Conn {
    var d := if c.dirty then Observed(c, tls) else c;
    ChallengeQueued(PathStep(d, PV.Refresh(tls.Some? && tls.value.confirmed)), tls)
  }

  function ChallengeRemoved(c: Conn): Conn {
    if c.path.pending.Some? && c.path.queued
    then c.(books := WithQueue(c.books, AppSpace, WithoutChallenge(c.books.app.queue, c.path.pending.value))) else c
  }

  /** `reset_peer_path_validation` of a server. */
  function ValidationStarted(c: Conn, at: int, token: Option<PathToken>, tls: Option<Tls>): Conn {
    var d := ChallengeRemoved(c);
    if token.None? then ToClosing(PathStep(d, PV.Unchallenged), at)
    else ChallengeQueued(PathStep(d, PV.NewPeer(token.value)), tls)
  }

  /** `accept_peer`. */
  function PeerMet(c: Conn, from: Endpoint, at: int, token: Option<PathToken>, tls: Option<Tls>): Conn {
    if from == c.peer then c
    else if c.config.migrationDisabled then ToClosing(c, at)
    else if c.config.server then ValidationStarted(c.(peer := from), at, token, tls)
    else c.(peer := from)
  }

  // ---------------------------------------------------------------- frames of a packet

  function RetirementsQueued(c: Conn, retired: seq<nat>): Conn {
    c.(books := Enqueue(c.books, AppSpace, Retirements(retired)))
  }

  function PathFrame(c: Conn, f: Frame): Conn {
    match f
    case PathChallenge(data) => c.(books := Enqueue(c.books, AppSpace, [PathResponse(data)]))
    case PathResponse(data) => PathStep(c, PV.Response(data))
    case _ => c
  }

  function PathFrames(c: Conn, frames: seq<Frame>): Conn {
    if frames == [] then c else PathFrame(PathFrames(c, frames[..|frames| - 1]), frames[|frames| - 1])
  }

  /** Reports packets to the sending streams. */
  ghost function TellStreams(c: Conn, s: Space, numbers: seq<nat>, acked: bool): Conn {
    c.(flow := Resolved(c.flow, RangesOf(c.books.ranges, s, numbers), acked), past := c.past + Tolds(s, numbers, acked))
  }

  /** The round-trip estimate after some packets were acknowledged. */
  function Measured(c: Conn, s: Space, acked: seq<nat>, ack: AckFrame, at: int): Rtt.Estimate {
    var p := SampleOf(c.books.recovery, s, acked);
    if p.None? || at < p.value.sentAt then c.rtt else
      var delay := if s.AppSpace? then AckDelay(ack.delay, c.config.ackDelayExponent) else 0;
      Rtt.Update(c.rtt, Rtt.Sample(at - p.value.sentAt, delay, c.config.maxAckDelay, c.confirmed))
  }

  ghost function AckTaken(c: Conn, s: Space, ack: AckFrame, at: int): Conn {
    var o := AckApplied(c.books, s, ack);
    var d := c.(books := o.books, rtt := Measured(c, s, o.acked, ack, at));
    TellStreams(TellStreams(d, s, o.acked, true), s, o.lost, false)
  }

  ghost function AckFrames(c: Conn, s: Space, frames: seq<Frame>, at: int): Conn {
    if frames == [] then c else
      var d, f := AckFrames(c, s, frames[..|frames| - 1], at), frames[|frames| - 1];
      if f.Ack? then AckTaken(d, s, f.ack, at) else d
  }

  function CreditFrame(c: Conn, f: WireFrame): Conn {
    match f
    case MaxStreamData(id, maximum) =>
      c.(flow := FC.RaiseStreamData(c.flow, id, maximum), past := c.past + [OnStreams(FC.StreamDataGrant(id, maximum))])
    case MaxData(maximum) =>
      c.(flow := FC.RaiseData(c.flow, maximum), past := c.past + [OnStreams(FC.DataGrant(maximum))])
    case MaxStreams(direction, maximum) =>
      c.(flow := FC.RaiseStreams(c.flow, direction, maximum),
         past := c.past + [OnStreams(FC.StreamsGrant(direction, maximum))])
    case _ => c
  }

  function CreditFrames(c: Conn, frames: seq<WireFrame>): Conn {
    if frames == [] then c else CreditFrame(CreditFrames(c, frames[..|frames| - 1]), frames[|frames| - 1])
  }

  function StopFrame(c: Conn, f: Frame): Conn {
    if f.StopSending?
    then c.(flow := FC.Halt(c.flow, f.streamId, f.errorCode),
            past := c.past + [OnStreams(FC.Halted(f.streamId, f.errorCode))])
    else c
  }

  function StopFrames(c: Conn, frames: seq<Frame>): Conn {
    if frames == [] then c else StopFrame(StopFrames(c, frames[..|frames| - 1]), frames[|frames| - 1])
  }

  /** The position of the first RESET_STREAM that is refused, or the end. */
  function FirstReset(frames: seq<Frame>, refused: set<nat>, i: nat): (k: nat)
    requires i <= |frames|
    ensures i <= k <= |frames|
    ensures k < |frames| ==> frames[k].ResetStream? && k in refused
    ensures forall j | i <= j < k :: frames[j].ResetStream? ==> j !in refused
    decreases |frames| - i
  {
    if i == |frames| || (frames[i].ResetStream? && i in refused) then i else FirstReset(frames, refused, i + 1)
  }

  /** The position of the first CRYPTO frame that is refused, or the end. */
  function FirstCrypto(frames: seq<Frame>, refused: set<nat>, i: nat): (k: nat)
    requires i <= |frames|
    ensures i <= k <= |frames|
    ensures k < |frames| ==> frames[k].Crypto? && k in refused
    ensures forall j | i <= j < k :: frames[j].Crypto? ==> j !in refused
    decreases |frames| - i
  {
    if i == |frames| || (frames[i].Crypto? && i in refused) then i else FirstCrypto(frames, refused, i + 1)
  }

  predicate HasCrypto(frames: seq<Frame>) {
    exists i :: 0 <= i < |frames| && frames[i].Crypto?
  }

  predicate StreamRefused(frames: seq<Frame>, refused: set<nat>) {
    exists i :: 0 <= i < |frames| && frames[i].Stream? && i in refused
  }

  /** STOP_SENDING and RESET_STREAM frames in turn, up to a reset that is refused. */
  function ControlTaken(c: Conn, frames: seq<Frame>, refused: set<nat>): Conn {
    StopFrames(c, frames[..FirstReset(frames, refused, 0)])
  }

  function CryptoTaken(c: Conn, frames: seq<Frame>, tls: Option<Tls>, refused: set<nat>): Conn {
    c.(dirty := c.dirty || (tls.Some? && HasCrypto(frames[..FirstCrypto(frames, refused, 0)])))
  }

  /** From the control frames to the event for the driver. */
  function Delivered(c: Conn, p: Parsed, at: int, env: PacketEnv): Conn {
    var c1 := ControlTaken(c, p.frames, env.refused);
    if FirstReset(p.frames, env.refused, 0) < |p.frames| then ToClosing(c1, at) else
      var c2 := CryptoTaken(c1, p.frames, env.before, env.refused);
      if env.before.Some? && FirstCrypto(p.frames, env.refused, 0) < |p.frames| then ToClosing(c2, at) else
        var c3 := Refreshed(c2, env.after);
        if StreamRefused(p.frames, env.refused) then ToClosing(c3, at)
        else Act(c3, PacketEvent(p.space, p.number))
  }

  /** Connection IDs, paths, acknowledgements and credit. */
  ghost function Recorded(c: Conn, p: Parsed, retired: seq<nat>, at: int): Conn {
    CreditFrames(AckFrames(PathFrames(RetirementsQueued(c, retired), p.frames), p.space, p.frames, at), p.frames)
  }

  /** A packet that was accepted: the checks on its frames, and their effects. */
  ghost function FramesTaken(c: Conn, p: Parsed, at: int, env: PacketEnv): Conn {
    if !AllAllowed(c.config.server, p.space, p.frames) then ToClosing(c, at)
    else if PeerCloses(p.frames) then ToDraining(c, at)
    else if env.retired.None? then ToClosing(c, at)
    else Delivered(Recorded(c, p, env.retired.value, at), p, at, env)
  }

  function CountReceived(c: Conn, size: u64, at: int): Conn {
    PathStep(c, PV.Arrival(size)).(lastActivity := Some(at))
  }

  /** The packet number is noted as received. */
  function Noticed(c: Conn, s: Space, n: nat): Conn {
    c.(books := WithReceived(c.books, s, n), past := c.past + [Saw(s, n)])
  }

  /** `process_parsed_packet`. */
  ghost function Processed(c: Conn, p: Parsed, from: Endpoint, size: u64, at: int, env: PacketEnv): Conn {
    if p.number in c.books.Get(p.space).received then c else
      var c1 := PeerMet(Noticed(c, p.space, p.number), from, at, env.token, env.before);
      if !c1.state.Active? then c1 else FramesTaken(CountReceived(c1, size, at), p, at, env)
  }

  /** The coalesced packets of a datagram. */
  ghost function ChunksTaken(c: Conn, chunks: seq<Chunk>, from: Endpoint, at: int): Conn
    decreases chunks
  {
    if chunks == [] then c else
      match chunks[0]
      case Unreadable(onlyZeros) => if onlyZeros then c else ToClosing(c, at)
      case BadHeader => ToClosing(c, at)
      case LongPacket(space, size, parsed, env) =>
        if c.keys.Discarded(space) then ChunksTaken(ClearedSpace(c, space), chunks[1..], from, at)
        else if parsed.None? then ToClosing(c, at) else
          var d := Processed(c, PacketIn(space, parsed.value), from, size, at, env);
          if !d.state.Active? then d
          else if !env.protectorsRefreshed then ToClosing(d, at)
          else ChunksTaken(d, chunks[1..], from, at)
  }

  ghost function DatagramTaken(c: Conn, d: Inbound, from: Endpoint, at: int, tls: Option<Tls>): Conn {
    if !c.state.Active? then c else
      var c1 := Refreshed(c, tls);
      match d
      case LongDatagram(chunks) => ChunksTaken(c1, chunks, from, at)
      case ShortDatagram(size, parsed, statelessReset, env) =>
        if c1.keys.Discarded(AppSpace) then ClearedSpace(c1, AppSpace)
        else if parsed.None? then (if statelessReset then ToDraining(c1, at) else ToClosing(c1, at))
        else Processed(c1, PacketIn(AppSpace, parsed.value), from, size, at, env)
  }

  // ---------------------------------------------------------------- sending

  /** A packet under the next number of its space, made from the first `taken` frames of the queue or from `frames`. */
  function PacketSent(c: Conn, s: Space, at: int, frames: seq<Frame>, ackEliciting: bool, size: u64, taken: nat): Conn
    requires taken <= |c.books.Get(s).queue|
  {
    var st := c.books.Get(s);
    var books := WithQueue(Sent(c.books, s, at, ackEliciting, frames), s, st.queue[taken..]);
    Act(c.(books := books, path := PV.Emitted(c.path, size)), Datagram(s, st.next, frames, size))
  }

  /** Nothing is sent: the queue is empty, or congestion control or pacing holds the packet back. */
  predicate HeldBack(c: Conn, s: Space, env: SendEnv) {
    c.books.Get(s).queue == [] || !env.canSend || (s.AppSpace? && !env.pacingAllows)
  }

  /** A packet can be made of the front of the queue. */
  predicate Sendable(c: Conn, s: Space, tls: Option<Tls>, env: SendEnv) {
    var queue := c.books.Get(s).queue;
    && (s.AppSpace? ==> SendAllowed(c, tls))
    && PayloadBudget.Sound(queue, c.config.maxPayload) && PayloadBudget.Front(queue, c.config.maxPayload) != 0
    && env.assembled.Some?
  }

  /** `flush_space`. */
  function SpaceFlushed(c: Conn, s: Space, at: int, tls: Option<Tls>, env: SendEnv): Conn {
    var queue := c.books.Get(s).queue;
    if queue != [] && c.keys.Discarded(s) then ClearedSpace(c, s)
    else if HeldBack(c, s, env) then c
    else if !Sendable(c, s, tls, env) then ToClosing(c, at)
    else if !PV.Allows(c.path, env.assembled.value) then c
    else
      var taken := PayloadBudget.Front(queue, c.config.maxPayload);
      var frames := queue[..taken];
      PacketSent(c, s, at, frames, AckEliciting(frames), env.assembled.value, taken).(lastActivity := Some(at))
  }

  function ItemsPumped(c: Conn, items: seq<CryptoItem>, clock: int): Conn
    decreases items
  {
    if items == [] then c
    else if c.keys.Discarded(items[0].space) then ItemsPumped(c, items[1..], clock)
    else if items[0].frames.None? then ToClosing(c, clock)
    else ItemsPumped(c.(books := Enqueue(c.books, items[0].space, items[0].frames.value)), items[1..], clock)
  }

  /** `pump_tls_crypto`. */
  function Pumped(c: Conn, pump: Pump, clock: int): Conn {
    match pump
    case NoAdapter => c
    case AdvanceFailed => ToClosing(c, clock)
    case Drained(items) => ItemsPumped(c.(dirty := true), items, clock)
  }

  function SpacesFlushed(c: Conn, at: int, env: FlushEnv): Conn {
    if !c.state.Active? then c else
      var c1 := SpaceFlushed(c, InitialSpace, at, env.after, env.initial);
      if !c1.state.Active? then c1 else
        var c2 := SpaceFlushed(c1, HandshakeSpace, at, env.after, env.handshake);
        if !c2.state.Active? then c2 else SpaceFlushed(c2, AppSpace, at, env.after, env.application)
  }

  /** `flush`: the keys are refreshed once more even if pumping TLS has closed the connection. */
  function Flushed(c: Conn, at: int, env: FlushEnv): Conn {
    if !c.state.Active? then c
    else SpacesFlushed(Refreshed(Pumped(Refreshed(c, env.before), env.pump, env.clock), env.after), at, env)
  }

  ghost predicate IsAckFor(f: AckFrame, received: set<nat>) {
    AckRanges.Valid(f) && AckRanges.Expand(f) == received && f.delay == 0 && f.ecn.None?
  }

  /** The one ACK frame for a set of received numbers. */
  ghost function AckFor(received: set<nat>): (f: AckFrame)
    ensures (exists g :: IsAckFor(g, received)) ==> IsAckFor(f, received)
  {
    if exists g :: IsAckFor(g, received) then var g :| IsAckFor(g, received); g else AckFrame(0, 0, 0, [], None)
  }

  /** `acknowledge`. */
  ghost function AckSent(c: Conn, s: Space, at: int, tls: Option<Tls>, assembled: Option<u64>): Conn {
    if !c.state.Active? then c else
      var c1 := Refreshed(c, tls);
      var received := c1.books.Get(s).received;
      if c1.keys.Discarded(s) then ClearedSpace(c1, s)
      else if received == {} then c1
      else if assembled.None? then ToClosing(c1, at)
      else if !PV.Allows(c1.path, assembled.value) then c1
      else PacketSent(c1, s, at, [Ack(AckFor(received))], false, assembled.value, 0)
  }

  // ---------------------------------------------------------------- timers

  function LossDelayOf(c: Conn): Option<int> {
    LossDelay(c.rtt)
  }

  function ProbeDelayOf(c: Conn, s: Space): Option<int> {
    ProbeDelay(c.rtt, s, c.confirmed, c.config.maxAckDelay)
  }

  function LossesDue(c: Conn, s: Space, now: int): seq<nat> {
    TimerLosses(c.books, s, LossDelayOf(c), ProbeDelayOf(c, s), now)
  }

  ghost function LossesDeclared(c: Conn, s: Space, now: int): Conn {
    var lost := LossesDue(c, s, now);
    TellStreams(c.(books := Retire(c.books, s, lost, Lost)), s, lost, false)
  }

  /** `on_recovery_timer`. */
  ghost function TimerFired(c: Conn, s: Space, now: int, tls: Option<Tls>): Conn {
    if !c.state.Active? then c else
      var c1 := Refreshed(c, tls);
      if c1.keys.Discarded(s) then ClearedSpace(c1, s) else LossesDeclared(c1, s, now)
  }

  /** What it returns: the packets declared lost and the next deadline. */
  function TimerResult(c: Conn, s: Space, now: int, tls: Option<Tls>): (seq<nat>, Option<int>) {
    var c1 := Refreshed(c, tls);
    if !c.state.Active? || c1.keys.Discarded(s) then ([], None)
    else (LossesDue(c1, s, now), NextDeadline(c1.books, s, LossDelayOf(c1), ProbeDelayOf(c1, s), now))
  }

  function TimerIn(c: Conn, s: Space): Option<Timer> {
    TimerOf(c.books, c.keys, c.rtt, c.confirmed, c.config.maxAckDelay, s)
  }

  /** `next_recovery_timer`. */
  function NextTimerAsked(c: Conn, tls: Option<Tls>): Conn {
    if c.state.Active? then Refreshed(c, tls) else c
  }

  function NextTimer(c: Conn, tls: Option<Tls>): Option<Alarm> {
    if !c.state.Active? then None else
      var d := Refreshed(c, tls);
      Sooner(Sooner(Sooner(None, InitialSpace, TimerIn(d, InitialSpace)), HandshakeSpace, TimerIn(d, HandshakeSpace)),
             AppSpace, TimerIn(d, AppSpace))
  }

  /** `next_lifecycle_timer` starts a clock that was not running. */
  function LifecycleAsked(c: Conn, now: int): Conn {
    if c.state.Closed? || (c.state.Active? && c.config.idleTimeout <= 0) then c
    else if c.state.Active? then (if c.lastActivity.None? then c.(lastActivity := Some(now)) else c)
    else if c.closedAt.None? then c.(closedAt := Some(now)) else c
  }

  function Lifecycle(c: Conn, now: int): Option<LifecycleTimer> {
    var d := LifecycleAsked(c, now);
    if c.state.Closed? || (c.state.Active? && c.config.idleTimeout <= 0) then None
    else if c.state.Active? then Some(LifecycleTimer(IdleTimer, d.lastActivity.value + c.config.idleTimeout))
    else Some(LifecycleTimer(KindOf(c.state), d.closedAt.value + c.config.drainTimeout))
  }

  /** `on_lifecycle_timer`. */
  function LifecycleFired(c: Conn, kind: TimerKind, now: int): Conn {
    var d, timer := LifecycleAsked(c, now), Lifecycle(c, now);
    if timer.None? || timer.value.kind != kind || now < timer.value.deadline then d
    else if c.state.Active? then ToClosing(d, now) else ToClosed(d)
  }

  // ---------------------------------------------------------------- the driver's other calls

  function SpaceDiscarded(c: Conn, s: Space): Conn {
    ClearedSpace(c.(keys := c.keys.Discard(s)), s)
  }

  function FramesQueued(c: Conn, s: Space, frames: seq<Frame>): Conn {
    if c.state.Active? then c.(books := WithQueue(c.books, s, frames)) else c
  }

  function DataAppended(c: Conn, id: u64, data: seq<byte>): Conn {
    if c.state.Active?
    then c.(flow := FC.Write(c.flow, id, data), past := c.past + [OnStreams(FC.Writing(id, data))]) else c
  }

  function Scheduled(c: Conn, ids: seq<nat>, maxFrames: nat, maxSize: nat): Conn
    requires c.flow.Valid()
  {
    if c.state.Active?
    then c.(flow := FC.Schedule(c.flow, ids, maxFrames, maxSize).0,
            past := c.past + [OnStreams(FC.Pass(ids, maxFrames, maxSize))])
    else c
  }

  function DataLimitRaised(c: Conn, limit: u64): Conn {
    c.(flow := FC.RaiseData(c.flow, limit), past := c.past + [OnStreams(FC.DataGrant(limit))])
  }

  function ActionsTaken(c: Conn): Conn {
    c.(actions := [], past := c.past + [Handed(c.actions)])
  }

  // ---------------------------------------------------------------- runs

  /** One call of the driver, with what the rest of the system answers to it. */
  datatype Call =
    | CallFlush(at: int, flush: FlushEnv)
    | CallAcknowledge(space: Space, at: int, tls: Option<Tls>, assembled: Option<u64>)
    | CallDatagram(inbound: Inbound, from: Endpoint, at: int, tls: Option<Tls>)
    | CallRecoveryTimer(space: Space, at: int, tls: Option<Tls>)
    | CallLifecycleTimer(kind: TimerKind, at: int)
    | CallNextRecoveryTimer(tls: Option<Tls>)
    | CallNextLifecycleTimer(at: int)
    | CallDiscard(space: Space)
    | CallQueue(space: Space, frames: seq<Frame>)
    | CallAppend(id: u64, data: seq<byte>)
    | CallSchedule(ids: seq<nat>, maxFrames: nat, maxSize: nat)
    | CallMaxData(limit: u64)
    | CallRttSample(sample: Rtt.Sample)
    | CallDrain

  ghost function Step(c: Conn, call: Call): Conn
    requires c.flow.Valid()
  {
    match call
    case CallFlush(at, env) => Flushed(c, at, env)
    case CallAcknowledge(space, at, tls, assembled) => AckSent(c, space, at, tls, assembled)
    case CallDatagram(inbound, from, at, tls) => DatagramTaken(c, inbound, from, at, tls)
    case CallRecoveryTimer(space, at, tls) => TimerFired(c, space, at, tls)
    case CallLifecycleTimer(kind, at) => LifecycleFired(c, kind, at)
    case CallNextRecoveryTimer(tls) => NextTimerAsked(c, tls)
    case CallNextLifecycleTimer(at) => LifecycleAsked(c, at)
    case CallDiscard(space) => SpaceDiscarded(c, space)
    case CallQueue(space, frames) => FramesQueued(c, space, frames)
    case CallAppend(id, data) => DataAppended(c, id, data)
    case CallSchedule(ids, maxFrames, maxSize) => Scheduled(c, ids, maxFrames, maxSize)
    case CallMaxData(limit) => DataLimitRaised(c, limit)
    case CallRttSample(sample) => c.(rtt := Rtt.Update(c.rtt, sample))
    case CallDrain => ActionsTaken(c)
  }
}
