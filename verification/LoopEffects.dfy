/**
 * The other half of `LoopCauses`: what a call brings takes effect. Every frame of a packet that is delivered leaves its
 * mark in the history, and with it on path and streams; and a confirmed handshake or an answered challenge validates
 * the peer's address.
 */
module LoopEffects {
  import opened Common
  import opened Frames
  import opened LoopCauses
  import opened LoopHistory
  import opened LoopInvariant
  import opened LoopReceived
  import opened LoopRuns
  import opened LoopSpec
  import opened LoopState
  import opened Recovery
  import opened SentRecords
  import FC = FlowControl
  import PV = PathValidation

  // ---------------------------------------------------------------- marks in the history

  /** The moment happened between `c` and `d`. */
  ghost predicate Between(m: Moment, c: Conn, d: Conn) {
    exists i :: |c.past| <= i < |d.past| && d.past[i] == m
  }

  ghost predicate Leads(c: Conn, d: Conn) {
    c.past <= d.past
  }

  lemma BetweenWider(m: Moment, b: Conn, c: Conn, d: Conn, e: Conn)
    requires Leads(b, c) && Leads(c, d) && Leads(d, e) && Between(m, c, d)
    ensures Between(m, b, e)
  {
    var i :| |c.past| <= i < |d.past| && d.past[i] == m;
    assert e.past[i] == m;
  }

  /** What a frame of a delivered packet does to path and streams. */
  ghost predicate TookEffect(f: Frame, c: Conn, d: Conn) {
    match f
    case PathResponse(token) => Between(OnPath(PV.Response(token)), c, d)
    case MaxData(maximum) => maximum <= U64_MAX && Between(OnStreams(FC.DataGrant(maximum)), c, d)
    case MaxStreamData(id, maximum) =>
      id <= U64_MAX && maximum <= U64_MAX && Between(OnStreams(FC.StreamDataGrant(id, maximum)), c, d)
    case MaxStreams(direction, maximum) =>
      maximum <= U64_MAX && Between(OnStreams(FC.StreamsGrant(direction, maximum)), c, d)
    case StopSending(id, code) => Between(OnStreams(FC.Halted(id, code)), c, d)
    case _ => true
  }

  lemma EffectWider(f: Frame, b: Conn, c: Conn, d: Conn, e: Conn)
    requires Leads(b, c) && Leads(c, d) && Leads(d, e) && TookEffect(f, c, d)
    ensures TookEffect(f, b, e)
  {
    hide Between;
    match f
    case PathResponse(token) => BetweenWider(OnPath(PV.Response(token)), b, c, d, e);
    case MaxData(maximum) => BetweenWider(OnStreams(FC.DataGrant(maximum)), b, c, d, e);
    case MaxStreamData(id, maximum) => BetweenWider(OnStreams(FC.StreamDataGrant(id, maximum)), b, c, d, e);
    case MaxStreams(direction, maximum) => BetweenWider(OnStreams(FC.StreamsGrant(direction, maximum)), b, c, d, e);
    case StopSending(id, code) => BetweenWider(OnStreams(FC.Halted(id, code)), b, c, d, e);
    case _ =>
  }

  /** Everything a delivered packet brings. */
  ghost predicate AllTookEffect(k: Packet, c: Conn, d: Conn) {
    && Between(Saw(k.parsed.space, k.parsed.number), c, d)
    && Between(OnPath(PV.Arrival(k.size)), c, d)
    && Between(OnPath(PV.Refresh(Confirms(k.env.after))), c, d)
    && forall i | 0 <= i < |k.parsed.frames| :: TookEffect(k.parsed.frames[i], c, d)
  }

  lemma AllEffectsWider(k: Packet, b: Conn, c: Conn, d: Conn, e: Conn)
    requires Leads(b, c) && Leads(c, d) && Leads(d, e) && AllTookEffect(k, c, d)
    ensures AllTookEffect(k, b, e)
  {
    hide Between, Leads, TookEffect;
    BetweenWider(Saw(k.parsed.space, k.parsed.number), b, c, d, e);
    BetweenWider(OnPath(PV.Arrival(k.size)), b, c, d, e);
    BetweenWider(OnPath(PV.Refresh(Confirms(k.env.after))), b, c, d, e);
    forall i | 0 <= i < |k.parsed.frames|
      ensures TookEffect(k.parsed.frames[i], b, e)
    {
      EffectWider(k.parsed.frames[i], b, c, d, e);
    }
  }

  // ---------------------------------------------------------------- frame by frame

  lemma QuietLeads(c: Conn, d: Conn)
    requires Quiet(c, d)
    ensures Leads(c, d)
  {
    hide Forgets;
  }

  lemma LastMoment(c: Conn, d: Conn, m: Moment)
    requires d.past == c.past + [m]
    ensures Leads(c, d) && Between(m, c, d)
  {
    assert d.past[|c.past|] == m;
  }

  lemma LeadsSelf(c: Conn)
    ensures Leads(c, c)
  {
  }

  lemma {:induction false} PathFramesTakeEffect(c: Conn, frames: seq<Frame>, i: nat)
    requires i < |frames| && frames[i].PathResponse?
    ensures TookEffect(frames[i], c, PathFrames(c, frames))
    decreases |frames|
  {
    hide Leads, Between, PV.Step, Enqueue, Quiet;
    var n := |frames| - 1;
    var d, e := PathFrames(c, frames[..n]), PathFrames(c, frames);
    PathFramesQuiet(c, frames[..n]);
    QuietLeads(c, d);
    LeadsSelf(c);
    LeadsSelf(e);
    if i == n {
      LastMoment(d, e, OnPath(PV.Response(frames[n].pathData)));
      BetweenWider(OnPath(PV.Response(frames[n].pathData)), c, d, e, e);
    } else {
      PathFramesTakeEffect(c, frames[..n], i);
      PathFramesQuiet(d, [frames[n]]);
      PathFramesOne(d, frames[n]);
      QuietLeads(d, e);
      BetweenWider(OnPath(PV.Response(frames[i].pathData)), c, c, d, e);
    }
  }

  lemma PathFramesOne(c: Conn, f: Frame)
    ensures PathFrames(c, [f]) == PathFrame(c, f)
  {
    assert [f][..0] == [];
  }

  lemma CreditFramesOne(c: Conn, f: WireFrame)
    ensures CreditFrames(c, [f]) == CreditFrame(c, f)
  {
    assert [f][..0] == [];
  }

  lemma StopFramesOne(c: Conn, f: Frame)
    ensures StopFrames(c, [f]) == StopFrame(c, f)
  {
    assert [f][..0] == [];
  }

  predicate GrantsCredit(f: Frame) {
    f.MaxData? || f.MaxStreamData? || f.MaxStreams?
  }

  lemma CreditTakesEffect(c: Conn, f: WireFrame)
    requires GrantsCredit(f)
    ensures TookEffect(f, c, CreditFrame(c, f)) && Leads(c, CreditFrame(c, f))
  {
    hide Leads, Between, FC.RaiseData, FC.RaiseStreamData, FC.RaiseStreams;
    match f
    case MaxStreamData(id, maximum) => LastMoment(c, CreditFrame(c, f), OnStreams(FC.StreamDataGrant(id, maximum)));
    case MaxData(maximum) => LastMoment(c, CreditFrame(c, f), OnStreams(FC.DataGrant(maximum)));
    case MaxStreams(direction, maximum) =>
      LastMoment(c, CreditFrame(c, f), OnStreams(FC.StreamsGrant(direction, maximum)));
  }

  lemma {:induction false} CreditFramesTakeEffect(c: Conn, frames: seq<WireFrame>, i: nat)
    requires i < |frames| && GrantsCredit(frames[i])
    ensures TookEffect(frames[i], c, CreditFrames(c, frames))
    decreases |frames|
  {
    hide Leads, TookEffect, CreditFrame, Quiet;
    var n := |frames| - 1;
    var d, e := CreditFrames(c, frames[..n]), CreditFrames(c, frames);
    CreditFramesQuiet(c, frames[..n]);
    QuietLeads(c, d);
    LeadsSelf(c);
    LeadsSelf(e);
    if i == n {
      CreditTakesEffect(d, frames[n]);
      EffectWider(frames[n], c, d, e, e);
    } else {
      CreditFramesTakeEffect(c, frames[..n], i);
      CreditFramesQuiet(d, [frames[n]]);
      CreditFramesOne(d, frames[n]);
      QuietLeads(d, e);
      EffectWider(frames[i], c, c, d, e);
    }
  }

  lemma {:induction false} StopFramesTakeEffect(c: Conn, frames: seq<Frame>, i: nat)
    requires i < |frames| && frames[i].StopSending?
    ensures TookEffect(frames[i], c, StopFrames(c, frames))
    decreases |frames|
  {
    hide Leads, Between, FC.Halt, Quiet;
    var n := |frames| - 1;
    var d, e := StopFrames(c, frames[..n]), StopFrames(c, frames);
    StopFramesQuiet(c, frames[..n]);
    QuietLeads(c, d);
    LeadsSelf(c);
    LeadsSelf(e);
    if i == n {
      LastMoment(d, e, OnStreams(FC.Halted(frames[n].streamId, frames[n].errorCode)));
      BetweenWider(OnStreams(FC.Halted(frames[n].streamId, frames[n].errorCode)), c, d, e, e);
    } else {
      StopFramesTakeEffect(c, frames[..n], i);
      StopFramesQuiet(d, [frames[n]]);
      StopFramesOne(d, frames[n]);
      QuietLeads(d, e);
      EffectWider(frames[i], c, c, d, e);
    }
  }

  // ---------------------------------------------------------------- a packet

  lemma RecordedTakesEffect(c: Conn, p: Parsed, retired: seq<nat>, at: int, i: nat)
    requires i < |p.frames| && (p.frames[i].PathResponse? || GrantsCredit(p.frames[i]))
    ensures TookEffect(p.frames[i], c, Recorded(c, p, retired, at)) && Leads(c, Recorded(c, p, retired, at))
  {
    hide Leads, Quiet, TookEffect, Enqueue, PathFrames, AckFrames, CreditFrames;
    var c1 := RetirementsQueued(c, retired);
    var c2 := PathFrames(c1, p.frames);
    var c3 := AckFrames(c2, p.space, p.frames, at);
    var c4 := CreditFrames(c3, p.frames);
    QueuedLeads(c, retired);
    PathFramesQuiet(c1, p.frames);
    AckFramesQuiet(c2, p.space, p.frames, at);
    CreditFramesQuiet(c3, p.frames);
    QuietTwice(c2, c3, c4);
    QuietTwice(c1, c2, c3);
    QuietTwice(c1, c2, c4);
    QuietLeads(c1, c2);
    QuietLeads(c2, c4);
    QuietLeads(c1, c3);
    QuietLeads(c3, c4);
    QuietLeads(c1, c4);
    LeadsSelf(c4);
    LeadsSelf(c1);
    LeadsTwice(c, c1, c3);
    LeadsTwice(c, c1, c4);
    if p.frames[i].PathResponse? {
      PathFramesTakeEffect(c1, p.frames, i);
      EffectWider(p.frames[i], c, c1, c2, c4);
    } else {
      CreditFramesTakeEffect(c3, p.frames, i);
      EffectWider(p.frames[i], c, c3, c4, c4);
    }
  }

  lemma QueuedLeads(c: Conn, retired: seq<nat>)
    ensures Leads(c, RetirementsQueued(c, retired))
  {
  }

  lemma LeadsTwice(c: Conn, d: Conn, e: Conn)
    requires Leads(c, d) && Leads(d, e)
    ensures Leads(c, e)
  {
  }

  lemma RefreshTakesEffect(c: Conn, tls: Option<Tls>)
    ensures Between(OnPath(PV.Refresh(Confirms(tls))), c, Refreshed(c, tls)) && Leads(c, Refreshed(c, tls))
  {
    hide PV.Step, Enqueue, Swept;
    var d := if c.dirty then Observed(c, tls) else c;
    var e := PathStep(d, PV.Refresh(Confirms(tls)));
    assert e.past[|c.past|] == OnPath(PV.Refresh(Confirms(tls)));
    assert Refreshed(c, tls).past[|c.past|] == e.past[|c.past|];
  }

  /** The last steps of a packet that is delivered: stops, the refresh and the event. */
  lemma DeliveredTakesEffect(c: Conn, p: Parsed, at: int, env: PacketEnv) returns (b: Conn)
    requires c.state.Active? && Delivered(c, p, at, env).state.Active?
    ensures var d := Delivered(c, p, at, env);
            && d.past == b.past + [Did(PacketEvent(p.space, p.number))] && Quiet(c, b)
            && Between(OnPath(PV.Refresh(Confirms(env.after))), c, b)
            && forall i | 0 <= i < |p.frames| && p.frames[i].StopSending? :: TookEffect(p.frames[i], c, b)
  {
    hide Leads, Quiet, TookEffect, Between, ToClosing, Refreshed, StopFrames, HasCrypto, StreamRefused;
    ClosingIsNotActive(ControlTaken(c, p.frames, env.refused), at);
    var c1 := ControlTaken(c, p.frames, env.refused);
    var c2 := CryptoTaken(c1, p.frames, env.before, env.refused);
    ClosingIsNotActive(c2, at);
    b := Refreshed(c2, env.after);
    ClosingIsNotActive(b, at);
    assert p.frames[..|p.frames|] == p.frames;
    StopFramesQuiet(c, p.frames);
    QuietLeads(c, c1);
    NoNewsNone(c1, c2);
    QuietSame(c1, c2);
    QuietTwice(c, c1, c2);
    QuietLeads(c, c2);
    RefreshedQuiet(c2, env.after);
    QuietTwice(c, c2, b);
    RefreshTakesEffect(c2, env.after);
    LeadsSelf(b);
    LeadsSelf(c);
    BetweenWider(OnPath(PV.Refresh(Confirms(env.after))), c, c2, b, b);
    forall i | 0 <= i < |p.frames| && p.frames[i].StopSending?
      ensures TookEffect(p.frames[i], c, b)
    {
      StopFramesTakeEffect(c, p.frames, i);
      CryptoLeads(c1, c2, b);
      EffectWider(p.frames[i], c, c, c1, b);
    }
  }

  lemma CryptoLeads(c: Conn, d: Conn, e: Conn)
    requires d.past == c.past && Leads(d, e)
    ensures Leads(c, e)
  {
  }

  lemma ClosingIsNotActive(c: Conn, at: int)
    ensures !ToClosing(c, at).state.Active?
  {
  }

  lemma DrainingIsNotActive(c: Conn, at: int)
    ensures !ToDraining(c, at).state.Active?
  {
  }

  /**
   * A new packet on a connection that stays active was delivered, and everything it brought took effect before that.
   */
  lemma PacketTakesEffect(c: Conn, k: Packet, from: Endpoint, at: int) returns (b: Conn)
    requires c.state.Active? && k.parsed.number !in c.books.Get(k.parsed.space).received
    requires Processed(c, k.parsed, from, k.size, at, k.env).state.Active?
    ensures var d := Processed(c, k.parsed, from, k.size, at, k.env);
            && d.past == b.past + [Did(PacketEvent(k.parsed.space, k.parsed.number))]
            && Quiet(Noticed(c, k.parsed.space, k.parsed.number), b) && AllTookEffect(k, c, b)
  {
    hide Leads, Quiet, TookEffect, Between, ToClosing, ToDraining, PeerMet, Recorded, Delivered, Noticed, CountReceived,
      AllAllowed, PeerCloses;
    var p, env := k.parsed, k.env;
    var c0 := Noticed(c, p.space, p.number);
    NoticeLeads(c, p.space, p.number);
    var c1 := PeerMet(c0, from, at, env.token, env.before);
    PeerMetQuiet(c0, from, at, env.token, env.before);
    var c2 := CountReceived(c1, k.size, at);
    CountLeads(c1, k.size, at);
    CountQuiet(c1, k.size, at);
    QuietTwice(c0, c1, c2);
    ClosingIsNotActive(c2, at);
    DrainingIsNotActive(c2, at);
    var c3 := Recorded(c2, p, env.retired.value, at);
    RecordedQuiet(c2, p, env.retired.value, at);
    RecordedState(c2, p, env.retired.value, at);
    QuietTwice(c0, c2, c3);
    b := DeliveredTakesEffect(c3, p, at, env);
    QuietTwice(c0, c3, b);
    QuietTwice(c2, c3, b);
    QuietLeads(c0, c1);
    QuietLeads(c0, b);
    QuietLeads(c0, c2);
    QuietLeads(c0, c3);
    QuietLeads(c2, b);
    QuietLeads(c3, b);
    LeadsTwice(c, c0, c1);
    LeadsTwice(c, c0, c2);
    LeadsTwice(c, c0, c3);
    LeadsSelf(b);
    LeadsSelf(c);
    BetweenWider(Saw(p.space, p.number), c, c, c0, b);
    BetweenWider(OnPath(PV.Arrival(k.size)), c, c1, c2, b);
    BetweenWider(OnPath(PV.Refresh(Confirms(env.after))), c, c3, b, b);
    forall i | 0 <= i < |p.frames|
      ensures TookEffect(p.frames[i], c, b)
    {
      if p.frames[i].PathResponse? || GrantsCredit(p.frames[i]) {
        RecordedTakesEffect(c2, p, env.retired.value, at, i);
        EffectWider(p.frames[i], c, c2, c3, b);
      } else if p.frames[i].StopSending? {
        EffectWider(p.frames[i], c, c3, b, b);
      } else {
        OtherFrames(p.frames[i], c, b);
      }
    }
  }

  lemma RecordedState(c: Conn, p: Parsed, retired: seq<nat>, at: int)
    requires c.state.Active?
    ensures Recorded(c, p, retired, at).state.Active?
  {
    hide Enqueue, PathFrames, AckFrames, CreditFrames;
    var c1 := RetirementsQueued(c, retired);
    FoldsKeepState(c1, p.space, p.frames, at);
    var c2 := PathFrames(c1, p.frames);
    FoldsKeepState(c2, p.space, p.frames, at);
    FoldsKeepState(AckFrames(c2, p.space, p.frames, at), p.space, p.frames, at);
  }

  lemma {:induction false} FoldsKeepState(c: Conn, s: Space, frames: seq<WireFrame>, at: int)
    ensures PathFrames(c, frames).state == c.state && AckFrames(c, s, frames, at).state == c.state
    ensures CreditFrames(c, frames).state == c.state
  {
    hide Enqueue, PV.Step, AckApplied, Measured, Resolved, RangesOf, Tolds, FC.RaiseData, FC.RaiseStreamData,
      FC.RaiseStreams;
    if frames != [] {
      FoldsKeepState(c, s, frames[..|frames| - 1], at);
    }
  }

  lemma OtherFrames(f: Frame, c: Conn, d: Conn)
    requires !f.PathResponse? && !GrantsCredit(f) && !f.StopSending?
    ensures TookEffect(f, c, d)
  {
  }

  lemma NoticeLeads(c: Conn, s: Space, n: nat)
    ensures Leads(c, Noticed(c, s, n)) && Between(Saw(s, n), c, Noticed(c, s, n))
  {
    LastMoment(c, Noticed(c, s, n), Saw(s, n));
  }

  lemma CountLeads(c: Conn, size: u64, at: int)
    ensures Leads(c, CountReceived(c, size, at)) && Between(OnPath(PV.Arrival(size)), c, CountReceived(c, size, at))
    ensures CountReceived(c, size, at).state == c.state
  {
    LastMoment(c, CountReceived(c, size, at), OnPath(PV.Arrival(size)));
  }

  /** A packet after which the connection is not active has not been delivered. */
  lemma ClosingPacketIsQuiet(c: Conn, p: Parsed, from: Endpoint, size: u64, at: int, env: PacketEnv)
    requires p.number !in c.books.Get(p.space).received && !Processed(c, p, from, size, at, env).state.Active?
    ensures Quiet(Noticed(c, p.space, p.number), Processed(c, p, from, size, at, env))
  {
    hide Quiet, PeerMet, FramesTaken, CountReceived, Noticed;
    var c0 := Noticed(c, p.space, p.number);
    var c1 := PeerMet(c0, from, at, env.token, env.before);
    PeerMetQuiet(c0, from, at, env.token, env.before);
    if c1.state.Active? {
      var c2 := CountReceived(c1, size, at);
      CountQuiet(c1, size, at);
      CountLeads(c1, size, at);
      QuietTwice(c0, c1, c2);
      ClosingFramesAreQuiet(c2, p, at, env);
      QuietTwice(c0, c2, FramesTaken(c2, p, at, env));
    }
  }

  lemma ClosingFramesAreQuiet(c: Conn, p: Parsed, at: int, env: PacketEnv)
    requires c.state.Active? && !FramesTaken(c, p, at, env).state.Active?
    ensures Quiet(c, FramesTaken(c, p, at, env))
  {
    hide Quiet, ToClosing, ToDraining, Recorded, AllAllowed, PeerCloses, StopFrames, HasCrypto, StreamRefused,
      Refreshed;
    ToClosingQuiet(c, at);
    if env.retired.Some? {
      var d := Recorded(c, p, env.retired.value, at);
      RecordedQuiet(c, p, env.retired.value, at);
      RecordedState(c, p, env.retired.value, at);
      var d1 := ControlTaken(d, p.frames, env.refused);
      StopFramesQuiet(d, p.frames[..FirstReset(p.frames, env.refused, 0)]);
      StopsKeepState(d, p.frames[..FirstReset(p.frames, env.refused, 0)]);
      QuietTwice(c, d, d1);
      ToClosingQuiet(d1, at);
      QuietTwice(c, d1, ToClosing(d1, at));
      var d2 := CryptoTaken(d1, p.frames, env.before, env.refused);
      NoNewsNone(d1, d2);
      QuietSame(d1, d2);
      QuietTwice(c, d1, d2);
      ToClosingQuiet(d2, at);
      QuietTwice(c, d2, ToClosing(d2, at));
      var d3 := Refreshed(d2, env.after);
      RefreshedQuiet(d2, env.after);
      RefreshKeepsState(d2, env.after);
      QuietTwice(c, d2, d3);
      ToClosingQuiet(d3, at);
      QuietTwice(c, d3, ToClosing(d3, at));
    }
  }

  lemma {:induction false} StopsKeepState(c: Conn, frames: seq<Frame>)
    ensures StopFrames(c, frames).state == c.state
  {
    hide FC.Halt;
    if frames != [] {
      StopsKeepState(c, frames[..|frames| - 1]);
    }
  }

  // ---------------------------------------------------------------- the answer to a challenge

  /**
   * A path challenge in a packet that is accepted is answered: the response is queued unless application data has
   * ended.
   */
  lemma ChallengeIsAnswered(c: Conn, k: Packet, from: Endpoint, at: int, i: nat)
    requires c.state.Active? && k.parsed.number !in c.books.Get(k.parsed.space).received
    requires i < |k.parsed.frames| && k.parsed.frames[i].PathChallenge?
    ensures var d := Processed(c, k.parsed, from, k.size, at, k.env);
            d.state.Active? && !d.keys.Discarded(AppSpace) ==>
              PathResponse(k.parsed.frames[i].pathData) in d.books.app.queue
  {
    hide PeerMet, Recorded, Delivered, Noticed, CountReceived, AllAllowed, PeerCloses, ToClosing, ToDraining;
    var p, env := k.parsed, k.env;
    var c1 := PeerMet(Noticed(c, p.space, p.number), from, at, env.token, env.before);
    var c2 := CountReceived(c1, k.size, at);
    ClosingIsNotActive(c2, at);
    DrainingIsNotActive(c2, at);
    if env.retired.Some? {
      var r := PathResponse(p.frames[i].pathData);
      RecordedAnswers(c2, p, env.retired.value, at, i);
      DeliveredKeepsQueue(Recorded(c2, p, env.retired.value, at), p, at, env, r);
    }
  }

  lemma RecordedAnswers(c: Conn, p: Parsed, retired: seq<nat>, at: int, i: nat)
    requires i < |p.frames| && p.frames[i].PathChallenge?
    ensures PathResponse(p.frames[i].pathData) in Recorded(c, p, retired, at).books.app.queue
  {
    hide Enqueue, PathFrames, AckFrames, CreditFrames;
    var c1 := RetirementsQueued(c, retired);
    PathFramesAnswer(c1, p.frames, i);
    var c2 := PathFrames(c1, p.frames);
    FoldsKeepQueue(c2, p.space, p.frames, at);
    FoldsKeepQueue(AckFrames(c2, p.space, p.frames, at), p.space, p.frames, at);
  }

  lemma {:induction false} PathFramesAnswer(c: Conn, frames: seq<Frame>, i: nat)
    requires i < |frames| && frames[i].PathChallenge?
    ensures PathResponse(frames[i].pathData) in PathFrames(c, frames).books.app.queue
    decreases |frames|
  {
    hide PV.Step;
    var n := |frames| - 1;
    if i < n {
      PathFramesAnswer(c, frames[..n], i);
    }
  }

  lemma {:induction false} FoldsKeepQueue(c: Conn, s: Space, frames: seq<WireFrame>, at: int)
    ensures AckFrames(c, s, frames, at).books.app.queue == c.books.app.queue
    ensures CreditFrames(c, frames).books.app.queue == c.books.app.queue
  {
    hide OnAck, MarkAll, Measured, Resolved, RangesOf, Tolds, FC.RaiseData, FC.RaiseStreamData, FC.RaiseStreams;
    if frames != [] {
      FoldsKeepQueue(c, s, frames[..|frames| - 1], at);
    }
  }

  lemma DeliveredKeepsQueue(c: Conn, p: Parsed, at: int, env: PacketEnv, f: Frame)
    requires f in c.books.app.queue
    ensures var d := Delivered(c, p, at, env);
            d.state.Active? && !d.keys.Discarded(AppSpace) ==> f in d.books.app.queue
  {
    hide ToClosing, Refreshed, StopFrames, HasCrypto, StreamRefused;
    var c1 := ControlTaken(c, p.frames, env.refused);
    StopsKeepQueue(c, p.frames[..FirstReset(p.frames, env.refused, 0)]);
    ClosingIsNotActive(c1, at);
    var c2 := CryptoTaken(c1, p.frames, env.before, env.refused);
    ClosingIsNotActive(c2, at);
    var c3 := Refreshed(c2, env.after);
    ClosingIsNotActive(c3, at);
    RefreshKeepsQueue(c2, env.after, f);
  }

  lemma {:induction false} StopsKeepQueue(c: Conn, frames: seq<Frame>)
    ensures StopFrames(c, frames).books == c.books
  {
    hide FC.Halt;
    if frames != [] {
      StopsKeepQueue(c, frames[..|frames| - 1]);
    }
  }

  lemma RefreshKeepsQueue(c: Conn, tls: Option<Tls>, f: Frame)
    requires f in c.books.app.queue
    ensures !Refreshed(c, tls).keys.Discarded(AppSpace) ==> f in Refreshed(c, tls).books.app.queue
  {
    hide PV.Step, Keep, KeepRanges;
  }

  // ---------------------------------------------------------------- calls

  /** The history up to a moment. */
  ghost function Until(d: Conn, j: nat): Conn
    requires j <= |d.past|
  {
    d.(past := d.past[..j])
  }

  /** The packet delivered at moment `j` is one of these, and everything it brought took effect before. */
  ghost predicate Backed(c: Conn, d: Conn, j: nat, packets: seq<Packet>)
    requires j < |d.past| && IsEvent(d.past[j])
  {
    exists i :: 0 <= i < |packets| && d.past[j].action == PacketEvent(packets[i].parsed.space, packets[i].parsed.number)
                && AllTookEffect(packets[i], c, Until(d, j))
  }

  ghost predicate AllBacked(c: Conn, d: Conn, packets: seq<Packet>) {
    Leads(c, d) && forall j | |c.past| <= j < |d.past| && IsEvent(d.past[j]) :: Backed(c, d, j, packets)
  }

  lemma QuietBacked(c: Conn, d: Conn, packets: seq<Packet>)
    requires Quiet(c, d)
    ensures AllBacked(c, d, packets)
  {
    hide Forgets, AllTookEffect;
  }

  lemma BackedFurther(b: Conn, c: Conn, d: Conn, few: seq<Packet>, all: seq<Packet>)
    requires Leads(b, c) && AllBacked(c, d, few) && forall i | 0 <= i < |few| :: few[i] in all
    ensures forall j | |c.past| <= j < |d.past| && IsEvent(d.past[j]) :: Backed(b, d, j, all)
  {
    hide AllTookEffect;
    forall j | |c.past| <= j < |d.past| && IsEvent(d.past[j])
      ensures Backed(b, d, j, all)
    {
      assert Backed(c, d, j, few);
      var i :| 0 <= i < |few| && d.past[j].action == PacketEvent(few[i].parsed.space, few[i].parsed.number)
               && AllTookEffect(few[i], c, Until(d, j));
      var n :| 0 <= n < |all| && all[n] == few[i];
      AllEffectsWider(few[i], b, c, Until(d, j), Until(d, j));
    }
  }

  lemma EarlierStayBacked(b: Conn, c: Conn, d: Conn, packets: seq<Packet>, all: seq<Packet>)
    requires AllBacked(b, c, packets) && Leads(c, d) && forall i | 0 <= i < |packets| :: packets[i] in all
    ensures forall j | |b.past| <= j < |c.past| && IsEvent(d.past[j]) :: Backed(b, d, j, all)
  {
    hide AllTookEffect;
    forall j | |b.past| <= j < |c.past| && IsEvent(d.past[j])
      ensures Backed(b, d, j, all)
    {
      assert c.past[j] == d.past[j] && Backed(b, c, j, packets);
      var i :| 0 <= i < |packets|
               && c.past[j].action == PacketEvent(packets[i].parsed.space, packets[i].parsed.number)
               && AllTookEffect(packets[i], b, Until(c, j));
      var n :| 0 <= n < |all| && all[n] == packets[i];
      assert Until(d, j).past == Until(c, j).past;
      SamePastSameEffects(packets[i], b, Until(c, j), Until(d, j));
    }
  }

  lemma SamePastSameEffects(k: Packet, c: Conn, d: Conn, e: Conn)
    requires d.past == e.past && AllTookEffect(k, c, d)
    ensures AllTookEffect(k, c, e)
  {
    forall m | Between(m, c, d)
      ensures Between(m, c, e)
    {
    }
    forall i | 0 <= i < |k.parsed.frames|
      ensures TookEffect(k.parsed.frames[i], c, e)
    {
      assert TookEffect(k.parsed.frames[i], c, d);
    }
  }

  lemma BackedTwice(b: Conn, c: Conn, d: Conn, few: seq<Packet>, more: seq<Packet>, all: seq<Packet>)
    requires AllBacked(b, c, few) && AllBacked(c, d, more)
    requires (forall i | 0 <= i < |few| :: few[i] in all) && forall i | 0 <= i < |more| :: more[i] in all
    ensures AllBacked(b, d, all)
  {
    hide Backed;
    EarlierStayBacked(b, c, d, few, all);
    BackedFurther(b, c, d, more, all);
  }

  lemma ProcessedBacked(c: Conn, k: Packet, from: Endpoint, at: int)
    requires c.state.Active?
    ensures AllBacked(c, Processed(c, k.parsed, from, k.size, at, k.env), [k])
  {
    hide Quiet, AllTookEffect, PeerMet, FramesTaken, CountReceived;
    var p, d := k.parsed, Processed(c, k.parsed, from, k.size, at, k.env);
    var c0 := Noticed(c, p.space, p.number);
    if p.number !in c.books.Get(p.space).received {
      if d.state.Active? {
        var b := PacketTakesEffect(c, k, from, at);
        DeliveryBacked(c, c0, b, d, k);
      } else {
        ClosingPacketIsQuiet(c, p, from, k.size, at, k.env);
        SeenThenQuiet(c, c0, d, [k]);
      }
    } else {
      LeadsSelf(c);
    }
  }

  lemma SeenThenQuiet(c: Conn, c0: Conn, d: Conn, packets: seq<Packet>)
    requires |c0.past| == |c.past| + 1 && c.past <= c0.past && c0.past[|c.past|].Saw? && Quiet(c0, d)
    ensures AllBacked(c, d, packets)
  {
    hide Forgets, Backed;
    assert d.past[|c.past|] == c0.past[|c.past|];
    assert forall j | |c.past| <= j < |d.past| :: !IsEvent(d.past[j]);
  }

  lemma DeliveryBacked(c: Conn, c0: Conn, b: Conn, d: Conn, k: Packet)
    requires c0.past == c.past + [Saw(k.parsed.space, k.parsed.number)] && Quiet(c0, b) && AllTookEffect(k, c, b)
    requires d.past == b.past + [Did(PacketEvent(k.parsed.space, k.parsed.number))]
    ensures AllBacked(c, d, [k])
  {
    hide Forgets, AllTookEffect;
    forall j | |c.past| <= j < |d.past| && IsEvent(d.past[j])
      ensures Backed(c, d, j, [k])
    {
      assert d.past[|c.past|] == c0.past[|c.past|];
      assert j == |b.past| && Until(d, j).past == b.past;
      SamePastSameEffects(k, c, b, Until(d, j));
      assert [k][0] == k;
    }
  }

  lemma {:induction false} ChunksBacked(c: Conn, chunks: seq<Chunk>, from: Endpoint, at: int)
    requires c.state.Active?
    ensures AllBacked(c, ChunksTaken(c, chunks, from, at), ChunkPackets(chunks))
    decreases chunks
  {
    hide AllBacked, Processed, ToClosing, Quiet;
    var packets := ChunkPackets(chunks);
    NoNewsNone(c, c);
    QuietSame(c, c);
    QuietBacked(c, c, packets);
    if chunks != [] {
      ToClosingQuiet(c, at);
      QuietBacked(c, ToClosing(c, at), packets);
      if chunks[0].LongPacket? {
        var h, rest := chunks[0], chunks[1..];
        var more := ChunkPackets(rest);
        if c.keys.Discarded(h.space) {
          var d := ClearedSpace(c, h.space);
          ClearedQuiet(c, h.space);
          QuietBacked(c, d, []);
          ChunksBacked(d, rest, from, at);
          BackedTwice(c, d, ChunksTaken(d, rest, from, at), [], more, packets);
        } else if h.parsed.Some? {
          var k := Packet(PacketIn(h.space, h.parsed.value), h.size, h.env);
          var d := Processed(c, k.parsed, from, k.size, at, k.env);
          ProcessedBacked(c, k, from, at);
          assert packets[0] == k && forall i | 0 <= i < |more| :: packets[i + 1] == more[i];
          NoNewsNone(d, d);
          QuietSame(d, d);
          QuietBacked(d, d, []);
          BackedTwice(c, d, d, [k], [], packets);
          ToClosingQuiet(d, at);
          QuietBacked(d, ToClosing(d, at), []);
          BackedTwice(c, d, ToClosing(d, at), [k], [], packets);
          if d.state.Active? {
            ChunksBacked(d, rest, from, at);
            BackedTwice(c, d, ChunksTaken(d, rest, from, at), [k], more, packets);
          }
        }
      }
    }
  }

  lemma DatagramBacked(c: Conn, d: Inbound, from: Endpoint, at: int, tls: Option<Tls>)
    ensures AllBacked(c, DatagramTaken(c, d, from, at, tls), Packets(d))
  {
    hide AllBacked, Processed, ToClosing, ToDraining, Quiet, Refreshed, ChunksTaken, ChunkPackets;
    var packets := Packets(d);
    NoNewsNone(c, c);
    QuietSame(c, c);
    QuietBacked(c, c, packets);
    if c.state.Active? {
      var c1 := Refreshed(c, tls);
      RefreshedQuiet(c, tls);
      RefreshKeepsState(c, tls);
      QuietBacked(c, c1, []);
      ToClosingQuiet(c1, at);
      QuietTwice(c, c1, ToClosing(c1, at));
      QuietTwice(c, c1, ToDraining(c1, at));
      QuietBacked(c, ToClosing(c1, at), packets);
      QuietBacked(c, ToDraining(c1, at), packets);
      match d
      case LongDatagram(chunks) =>
        ChunksBacked(c1, chunks, from, at);
        BackedTwice(c, c1, ChunksTaken(c1, chunks, from, at), [], packets, packets);
      case ShortDatagram(size, parsed, statelessReset, env) =>
        if c1.keys.Discarded(AppSpace) {
          ClearedQuiet(c1, AppSpace);
          QuietTwice(c, c1, ClearedSpace(c1, AppSpace));
          QuietBacked(c, ClearedSpace(c1, AppSpace), packets);
        } else if parsed.Some? {
          var k := Packet(PacketIn(AppSpace, parsed.value), size, env);
          ProcessedBacked(c1, k, from, at);
          BackedTwice(c, c1, Processed(c1, k.parsed, from, size, at, env), [], packets, packets);
        }
    }
  }

  ghost function PacketsOf(call: Call): seq<Packet> {
    if call.CallDatagram? then Packets(call.inbound) else []
  }

  lemma StepBacked(c: Conn, call: Call)
    requires c.flow.Valid()
    ensures AllBacked(c, Step(c, call), PacketsOf(call))
  {
    hide AllBacked, Quiet, FC.Flow.Valid, Flushed, AckSent, DatagramTaken, TimerFired, LifecycleFired, LifecycleAsked,
      NextTimerAsked, SpaceDiscarded, FramesQueued, DataAppended, Scheduled, DataLimitRaised, ActionsTaken, Packets;
    match call {
      case CallDatagram(inbound, from, at, tls) => DatagramBacked(c, inbound, from, at, tls);
      case CallFlush(at, env) => FlushedQuiet(c, at, env);
      case CallAcknowledge(space, at, tls, assembled) => AckSentQuiet(c, space, at, tls, assembled);
      case CallRecoveryTimer(space, at, tls) => TimerFiredQuiet(c, space, at, tls);
      case CallNextRecoveryTimer(tls) => TimerFiredQuiet(c, InitialSpace, 0, tls);
      case CallLifecycleTimer(kind, at) => LifecycleQuiet(c, kind, at);
      case CallNextLifecycleTimer(at) => LifecycleQuiet(c, IdleTimer, at);
      case CallDiscard(space) => SpaceDiscardedQuiet(c, space);
      case _ => SmallCallsQuiet(c, call);
    }
    if !call.CallDatagram? {
      QuietBacked(c, Step(c, call), []);
    }
  }

  /**
   * Over every run each packet event belongs to a packet that the call of that moment brought, and all that the packet
   * brought had taken effect by then: its bytes were counted, its responses and its credit reached path and streams,
   * its stops reached the streams.
   */
  lemma DeliveredPacketsTookEffect(c: Conn, calls: seq<Call>, j: nat) returns (i: nat)
    requires Inv(c) && |c.past| <= j < |Run(c, calls).past| && IsEvent(Run(c, calls).past[j])
    ensures i < |calls| && Backed(Run(c, calls[..i]), Run(c, calls), j, PacketsOf(calls[i]))
    ensures |Run(c, calls[..i]).past| <= j
  {
    hide Inv, Run, Step, Causes, Backed;
    i := CallOf(c, calls, j);
    var d, e, all := Run(c, calls[..i]), Run(c, calls[..i + 1]), Run(c, calls);
    assert calls[..i + 1] == calls[..i] + [calls[i]];
    RunGrows(c, calls[..i], calls[i]);
    StepBacked(d, calls[i]);
    RunContinues(c, calls, i + 1);
    var packets := PacketsOf(calls[i]);
    EarlierStayBacked(d, e, all, packets, packets);
  }

  // ---------------------------------------------------------------- the peer's address

  /** Exactly when a server's peer address is not limited, in terms of the connection's history. */
  lemma AddressIsValidatedExactly(c: Conn)
    requires Inv(c) && c.config.server
    ensures !c.path.Limited() <==> PV.IsValidated(c.config.addressValidated, PathEvents(c.past))
  {
    hide InOrder, ActionsOk, Flows, NoRecords, PathEvents, ReceivedSince, SentSince, PV.IsValidated;
    PV.UnlimitedExactly(c.config.addressValidated, PV.Meter(0, 0), PathEvents(c.past));
    hide PV.Run;
  }

  lemma {:induction false} EventsAreMoments(h: seq<Moment>, e: PV.Event)
    requires !e.Departure?
    ensures e in PathEvents(h) <==> OnPath(e) in h
  {
    if h != [] {
      EventsAreMoments(h[..|h| - 1], e);
      assert h == h[..|h| - 1] + [h[|h| - 1]];
    }
  }

  /** The TLS state a call looks at before anything else. */
  function FirstTls(call: Call): Option<Tls> {
    match call
    case CallFlush(_, env) => env.before
    case CallAcknowledge(_, _, tls, _) => tls
    case CallDatagram(_, _, _, tls) => tls
    case CallRecoveryTimer(_, _, tls) => tls
    case CallNextRecoveryTimer(tls) => tls
    case _ => None
  }

  lemma FirstRefresh(c: Conn, call: Call)
    requires c.flow.Valid() && c.state.Active? && Confirms(FirstTls(call))
    ensures Between(OnPath(PV.Refresh(true)), c, Step(c, call))
  {
    hide Between, Leads, Quiet, FC.Flow.Valid, Refreshed, Pumped, SpacesFlushed, ChunksTaken, Processed, ToClosing,
      ToDraining, ClearedSpace, PacketSent, LossesDeclared, AckFor, PV.Allows, LifecycleFired, LifecycleAsked,
      SpaceDiscarded, FramesQueued, DataAppended, Scheduled, DataLimitRaised, ActionsTaken;
    var tls := FirstTls(call);
    var r := Refreshed(c, tls);
    RefreshTakesEffect(c, tls);
    LeadsSelf(c);
    RestLeads(c, call);
    BetweenWider(OnPath(PV.Refresh(true)), c, c, r, Step(c, call));
  }

  lemma RestLeads(c: Conn, call: Call)
    requires c.flow.Valid() && c.state.Active? && Confirms(FirstTls(call))
    ensures Leads(Refreshed(c, FirstTls(call)), Step(c, call))
  {
    hide Leads, Quiet, FC.Flow.Valid, Refreshed, Pumped, SpacesFlushed, ToClosing, ToDraining, ClearedSpace,
      PacketSent, LossesDue, AckFor, PV.Allows, LifecycleFired, LifecycleAsked, SpaceDiscarded, FramesQueued,
      DataAppended, Scheduled, DataLimitRaised, ActionsTaken, DatagramTaken, TellStreams, Retire;
    var r := Refreshed(c, FirstTls(call));
    LeadsSelf(r);
    match call
    case CallFlush(at, env) =>
      PumpedQuiet(r, env.pump, env.clock);
      RefreshedQuiet(Pumped(r, env.pump, env.clock), env.after);
      var s := Refreshed(Pumped(r, env.pump, env.clock), env.after);
      QuietTwice(r, Pumped(r, env.pump, env.clock), s);
      SpacesFlushedQuiet(s, at, env);
      QuietTwice(r, s, SpacesFlushed(s, at, env));
      QuietLeads(r, Step(c, call));
    case CallAcknowledge(space, at, tls, assembled) => AckLeads(c, space, at, tls, assembled);
    case CallDatagram(inbound, from, at, tls) => DatagramLeads(c, inbound, from, at, tls);
    case CallRecoveryTimer(space, at, tls) =>
      ClearedLeads(r, space);
      var lost := LossesDue(r, space, at);
      TellQuiet(r.(books := Retire(r.books, space, lost, Lost)), space, lost, false);
      QuietLeads(r.(books := Retire(r.books, space, lost, Lost)),
                 TellStreams(r.(books := Retire(r.books, space, lost, Lost)), space, lost, false));
      CryptoLeads(r, r.(books := Retire(r.books, space, lost, Lost)), LossesDeclared(r, space, at));
    case CallNextRecoveryTimer(tls) =>
  }

  lemma ClearedLeads(c: Conn, s: Space)
    ensures Leads(c, ClearedSpace(c, s))
  {
  }

  lemma AckLeads(c: Conn, s: Space, at: int, tls: Option<Tls>, assembled: Option<u64>)
    requires c.state.Active?
    ensures Leads(Refreshed(c, tls), AckSent(c, s, at, tls, assembled))
  {
    hide Leads, Quiet, Refreshed, ToClosing, ClearedSpace, PacketSent, AckFor, PV.Allows;
    var r := Refreshed(c, tls);
    LeadsSelf(r);
    ClearedLeads(r, s);
    ToClosingQuiet(r, at);
    QuietLeads(r, ToClosing(r, at));
    if assembled.Some? {
      var frames := [Ack(AckFor(r.books.Get(s).received))];
      PacketSentQuiet(r, s, at, frames, false, assembled.value, 0);
      QuietLeads(r, PacketSent(r, s, at, frames, false, assembled.value, 0));
    }
  }

  lemma DatagramLeads(c: Conn, d: Inbound, from: Endpoint, at: int, tls: Option<Tls>)
    requires c.state.Active?
    ensures Leads(Refreshed(c, tls), DatagramTaken(c, d, from, at, tls))
  {
    hide Quiet, Refreshed, ToClosing, ToDraining, ChunksTaken, Processed, Backed;
    var r := Refreshed(c, tls);
    RefreshKeepsState(c, tls);
    ToClosingQuiet(r, at);
    QuietLeads(r, ToClosing(r, at));
    QuietLeads(r, ToDraining(r, at));
    match d
    case LongDatagram(chunks) => ChunksBacked(r, chunks, from, at);
    case ShortDatagram(size, parsed, statelessReset, env) =>
      if parsed.Some? {
        ProcessedBacked(r, Packet(PacketIn(AppSpace, parsed.value), size, env), from, at);
      }
  }

  lemma BetweenIn(m: Moment, c: Conn, d: Conn, e: Conn)
    requires Between(m, c, d) && Leads(d, e)
    ensures m in e.past
  {
    var i :| |c.past| <= i < |d.past| && d.past[i] == m;
    assert e.past[i] == m;
  }

  /** An answer validates: if the pending challenge of a server is answered in a run in which the peer does not move. */
  lemma AnswerValidates(c: Conn, calls: seq<Call>, token: PathToken)
    requires Inv(c) && c.config.server && c.path.pending == Some(token)
    requires Between(OnPath(PV.Response(token)), c, Run(c, calls))
    requires forall k | |c.past| <= k < |Run(c, calls).past| :: !Moves(Run(c, calls).past[k])
    ensures !Run(c, calls).path.Limited()
  {
    hide Inv, Run, PathEvents, PV.Unanswered;
    var d := Run(c, calls);
    PendingIsUnanswered(c);
    UnansweredFrom(c.past, d.past, token);
    var es, n := PathEvents(d.past), |PathEvents(c.past)|;
    assert es[..n] == PathEvents(c.past);
    PV.AnsweredIsValidated(c.config.addressValidated, es, n, token);
    AddressIsValidatedExactly(d);
  }

  /** The path events of a longer history: those of the shorter one, and those of its further moments. */
  lemma {:induction false} UnansweredFrom(h: seq<Moment>, k: seq<Moment>, token: PathToken)
    requires h <= k && forall i | |h| <= i < |k| :: !Moves(k[i])
    ensures var es, n := PathEvents(k), |PathEvents(h)|;
            && PathEvents(h) <= es && (forall i | n <= i < |es| :: !PV.IsMove(es[i]))
            && ((exists i :: |h| <= i < |k| && k[i] == OnPath(PV.Response(token))) ==>
                  exists i :: n <= i < |es| && es[i] == PV.Response(token))
    decreases |k|
  {
    hide PathEvents;
    if |h| == |k| {
      assert h == k;
    } else {
      var front, m := k[..|k| - 1], k[|k| - 1];
      assert k == front + [m];
      UnansweredFrom(h, front, token);
      PathNext(front, m);
      var es, fs := PathEvents(k), PathEvents(front);
      assert fs <= es;
      if m == OnPath(PV.Response(token)) {
        assert es[|fs|] == PV.Response(token);
      }
      if i :| |h| <= i < |k| && k[i] == OnPath(PV.Response(token)) && i < |front| {
        assert front[i] == k[i];
        var x :| |PathEvents(h)| <= x < |fs| && fs[x] == PV.Response(token);
        assert es[x] == fs[x];
      }
    }
  }

  /** The call brings word of a confirmed handshake, at its start, after pumping TLS or with one of its packets. */
  ghost predicate BringsConfirmation(call: Call) {
    || Confirms(FirstTls(call))
    || (call.CallFlush? && Confirms(call.flush.after))
    || (&& call.CallDatagram?
        && exists i :: 0 <= i < |Packets(call.inbound)| && Confirms(Packets(call.inbound)[i].env.after))
  }

  lemma ConfirmationIsBrought(c: Conn, call: Call)
    requires Causes(c, call, OnPath(PV.Refresh(true)))
    ensures BringsConfirmation(call)
  {
    if call.CallDatagram? {
      assert true in DatagramWhy(call.inbound, call.from, call.tls, c.peer).confirms;
    }
  }

  /**
   * A server whose peer never moves: its address is not limited if and only if it was valid from the start or the
   * history holds a confirmed handshake; such a moment comes only from a call that brings the confirmation, and every
   * call that finds the handshake confirmed on the active connection leaves one.
   */
  lemma UnmovedIsValidatedExactly(config: Config, peer: Endpoint, calls: seq<Call>)
    requires config.server
    ensures Inv(NewConn(config, peer))
    ensures var start := NewConn(config, peer);
            var c := Run(start, calls);
            (forall k | 0 <= k < |c.past| :: !Moves(c.past[k])) ==>
              && (!c.path.Limited() <==> config.addressValidated || OnPath(PV.Refresh(true)) in c.past)
              && (OnPath(PV.Refresh(true)) in c.past ==> exists i :: 0 <= i < |calls| && BringsConfirmation(calls[i]))
              && (forall i | 0 <= i < |calls| && Run(start, calls[..i]).state.Active? && Confirms(FirstTls(calls[i])) ::
                    OnPath(PV.Refresh(true)) in c.past)
  {
    hide Inv, Run, PathEvents, BringsConfirmation, Causes, Between, Step;
    NewConnIsOk(config, peer);
    var start := NewConn(config, peer);
    var c := Run(start, calls);
    if forall k | 0 <= k < |c.past| :: !Moves(c.past[k]) {
      UnmovedEvents(c);
      if OnPath(PV.Refresh(true)) in c.past {
        var k :| 0 <= k < |c.past| && c.past[k] == OnPath(PV.Refresh(true));
        var i := CallOf(start, calls, k);
        ConfirmationIsBrought(Run(start, calls[..i]), calls[i]);
      }
      forall i | 0 <= i < |calls| && Run(start, calls[..i]).state.Active? && Confirms(FirstTls(calls[i]))
        ensures OnPath(PV.Refresh(true)) in c.past
      {
        RefreshIsKept(start, calls, i);
      }
    }
  }

  lemma RefreshIsKept(c: Conn, calls: seq<Call>, i: nat)
    requires Inv(c) && i < |calls| && Run(c, calls[..i]).state.Active? && Confirms(FirstTls(calls[i]))
    ensures OnPath(PV.Refresh(true)) in Run(c, calls).past
  {
    hide Inv, Run, Step, Between;
    var d, e, all := Run(c, calls[..i]), Run(c, calls[..i + 1]), Run(c, calls);
    assert calls[..i + 1] == calls[..i] + [calls[i]];
    RunGrows(c, calls[..i], calls[i]);
    FirstRefresh(d, calls[i]);
    RunContinues(c, calls, i + 1);
    BetweenIn(OnPath(PV.Refresh(true)), d, e, all);
  }

  lemma UnmovedEvents(c: Conn)
    requires Inv(c) && c.config.server && forall k | 0 <= k < |c.past| :: !Moves(c.past[k])
    ensures !c.path.Limited() <==> c.config.addressValidated || OnPath(PV.Refresh(true)) in c.past
  {
    hide Inv, PathEvents;
    forall k | 0 <= k < |PathEvents(c.past)|
      ensures !PV.IsMove(PathEvents(c.past)[k])
    {
      var m := PathEvents(c.past)[k];
      if !m.Departure? {
        EventsAreMoments(c.past, m);
        var x :| 0 <= x < |c.past| && c.past[x] == OnPath(m);
      }
    }
    EventsAreMoments(c.past, PV.Refresh(true));
    AddressIsValidatedExactly(c);
  }
}
