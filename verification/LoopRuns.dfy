/**
 * What holds over whole runs of the connection loop: any calls, in any order, with any answers from the rest of the
 * system. The theorems are about the calls and about the history they produce.
 */
module LoopRuns {
  import opened Common
  import opened Frames
  import opened LoopCauses
  import opened LoopHistory
  import opened LoopInvariant
  import opened LoopSpec
  import opened LoopState
  import opened Recovery
  import opened SentRecords
  import AckRanges
  import FC = FlowControl
  import PV = PathValidation

  /** A run of calls. */
  ghost function Run(c: Conn, calls: seq<Call>): (d: Conn)
    requires Inv(c)
    ensures Kept(c, d)
  {
    hide Inv, Step;
    if calls == [] then c else
      var n := |calls| - 1;
      var d := Run(c, calls[..n]);
      StepKeeps(d, calls[n]);
      Step(d, calls[n])
  }

  lemma RunGrows(c: Conn, calls: seq<Call>, call: Call)
    requires Inv(c)
    ensures Run(c, calls).flow.Valid() && Run(c, calls + [call]) == Step(Run(c, calls), call)
  {
    hide Inv, Step;
    assert (calls + [call])[..|calls|] == calls;
    StepKeeps(Run(c, calls), call);
  }

  lemma RunEmpty(c: Conn)
    requires Inv(c)
    ensures Run(c, []) == c
  {
  }

  /** The bytes of all packets that calls bring. */
  ghost function BytesIn(calls: seq<Call>): nat {
    if calls == [] then 0 else BytesIn(calls[..|calls| - 1]) + BytesOf(calls[|calls| - 1])
  }

  // ---------------------------------------------------------------- causes

  /** Moment `i` of a run was caused by one of its calls, in the state the calls before it led to. */
  ghost predicate Caused(c: Conn, calls: seq<Call>, m: Moment)
    requires Inv(c)
  {
    exists i :: 0 <= i < |calls| && Causes(Run(c, calls[..i]), calls[i], m)
  }

  /** The call during which moment `k` of a run happened. */
  lemma {:induction false} CallOf(c: Conn, calls: seq<Call>, k: nat) returns (i: nat)
    requires Inv(c) && |c.past| <= k < |Run(c, calls).past|
    ensures i < |calls| && |Run(c, calls[..i]).past| <= k < |Run(c, calls[..i + 1]).past|
    ensures Causes(Run(c, calls[..i]), calls[i], Run(c, calls).past[k])
    decreases |calls|
  {
    hide Inv, Step, Causes, Run;
    RunEmpty(c);
    if calls == [] {
      assert false;
    } else {
      var n := |calls| - 1;
      var front := calls[..n];
      var d := Run(c, front);
      assert calls == front + [calls[n]];
      RunGrows(c, front, calls[n]);
      MomentsHaveCauses(d, calls[n]);
      if k < |d.past| {
        i := CallOf(c, front, k);
        assert calls[..i] == front[..i] && calls[..i + 1] == front[..i + 1];
      } else {
        i := n;
        assert calls[..n + 1] == calls;
      }
    }
  }

  /** Nothing in the history of a run comes from anywhere but its calls. */
  lemma EveryMomentHasACause(c: Conn, calls: seq<Call>, k: nat)
    requires Inv(c) && |c.past| <= k < |Run(c, calls).past|
    ensures Caused(c, calls, Run(c, calls).past[k])
  {
    hide Inv, Run, Causes;
    var i := CallOf(c, calls, k);
  }

  lemma {:induction false} ArrivalsComeFromCalls(c: Conn, calls: seq<Call>)
    requires Inv(c)
    ensures Arrived(Run(c, calls).past) <= Arrived(c.past) + BytesIn(calls)
    decreases |calls|
  {
    hide Inv, Step, Causes, Arrived;
    if calls != [] {
      var n := |calls| - 1;
      ArrivalsComeFromCalls(c, calls[..n]);
      MomentsHaveCauses(Run(c, calls[..n]), calls[n]);
    }
  }

  // ---------------------------------------------------------------- amplification

  lemma {:induction false} SinceIsAtMostAll(h: seq<Moment>)
    ensures ReceivedSince(h) <= Arrived(h)
  {
    if h != [] {
      SinceIsAtMostAll(h[..|h| - 1]);
    }
  }

  /**
   * While the peer's address is unvalidated, at most three bytes have left for each byte that came, since it was
   * adopted.
   */
  lemma UnvalidatedIsLimited(c: Conn)
    requires Inv(c) && c.path.Limited()
    ensures ReceivedSince(c.past) <= PV.THIRD ==> SentSince(c.past) <= 3 * ReceivedSince(c.past)
    ensures c.path.sent <= 3 * c.path.received
    ensures c.path.received == Min(ReceivedSince(c.past), U64_MAX) && c.path.sent == Min(SentSince(c.past), U64_MAX)
  {
    hide InOrder, ActionsOk, Flows, NoRecords, PathEvents, ReceivedSince, SentSince;
    PV.EveryRunIsMetered(c.config.server, c.config.addressValidated, PathEvents(c.past));
    hide PV.Run;
  }

  /** The same over the calls of a run: a client that sent so many bytes draws at most three times as many. */
  lemma AmplificationOverRuns(config: Config, peer: Endpoint, calls: seq<Call>)
    ensures Inv(NewConn(config, peer))
    ensures var c := Run(NewConn(config, peer), calls);
            && ReceivedSince(c.past) <= BytesIn(calls)
            && (c.path.Limited() && BytesIn(calls) <= PV.THIRD ==> SentSince(c.past) <= 3 * ReceivedSince(c.past))
  {
    hide Inv, Arrived, ReceivedSince, SentSince;
    NewConnIsOk(config, peer);
    var c := Run(NewConn(config, peer), calls);
    ArrivalsComeFromCalls(NewConn(config, peer), calls);
    NothingArrived();
    SinceIsAtMostAll(c.past);
    if c.path.Limited() {
      UnvalidatedIsLimited(c);
    }
  }

  lemma NothingArrived()
    ensures Arrived([]) == 0
  {
  }

  // ---------------------------------------------------------------- revalidation

  /** The pending challenge is the latest one that was not answered, and until it is the address is unvalidated. */
  lemma PendingIsUnanswered(c: Conn)
    requires Inv(c) && c.config.server
    ensures c.path.pending == PV.Unanswered(PathEvents(c.past))
    ensures c.path.pending.Some? ==> c.path.migrated && c.path.Limited()
  {
    hide InOrder, ActionsOk, Flows, NoRecords, PathEvents, ReceivedSince, SentSince, PV.Unanswered;
    PV.OnlyTheAnswerRevalidates(c.config.addressValidated, PV.Meter(0, 0), PathEvents(c.past));
    hide PV.Run;
  }

  /** One of the packets a call brings carries a PATH_RESPONSE with this token. */
  ghost predicate Carries(call: Call, token: PathToken) {
    call.CallDatagram? &&
    exists i :: 0 <= i < |Packets(call.inbound)| && PathResponse(token) in Packets(call.inbound)[i].parsed.frames
  }

  lemma ResponsesAreCarried(c: Conn, call: Call, m: Moment)
    requires Causes(c, call, m) && m.OnPath? && m.path.Response?
    ensures Carries(call, m.path.token)
  {
  }

  predicate IsChallenge(m: Moment) {
    m.OnPath? && m.path.NewPeer?
  }

  /** The token of the latest challenge. */
  ghost function Latest(h: seq<Moment>): Option<PathToken> {
    if h == [] then None
    else if IsChallenge(h[|h| - 1]) then Some(h[|h| - 1].path.token) else Latest(h[..|h| - 1])
  }

  /** Moment `k` answers the latest challenge of the history, and no challenge comes after it. */
  ghost predicate Answers(h: seq<Moment>, k: nat) {
    && k < |h| && h[k].OnPath? && h[k].path.Response? && Latest(h) == Some(h[k].path.token)
    && Latest(h[..k]) == Latest(h) && forall j | k < j < |h| :: !IsChallenge(h[j])
  }

  lemma UnansweredNext(h: seq<Moment>, m: Moment)
    ensures var before, after := PV.Unanswered(PathEvents(h)), PV.Unanswered(PathEvents(h + [m]));
            after == if IsChallenge(m) then Some(m.path.token)
                     else if m.OnPath? && m.path.Response? && before == Some(m.path.token) then None else before
    ensures Latest(h + [m]) == if IsChallenge(m) then Some(m.path.token) else Latest(h)
  {
    hide PathEvents;
    PathNext(h, m);
    Next(h, m);
    var es := PathEvents(h);
    if PathEvents(h + [m]) != es {
      var e := PathEvents(h + [m])[|es|];
      assert PathEvents(h + [m]) == es + [e] && (es + [e])[..|es|] == es;
    }
  }

  lemma {:induction false} UnansweredIsLatest(h: seq<Moment>)
    ensures PV.Unanswered(PathEvents(h)).Some? ==> Latest(h) == PV.Unanswered(PathEvents(h))
    ensures Latest(h).None? ==> PV.Unanswered(PathEvents(h)).None?
  {
    if h != [] {
      var n := |h| - 1;
      UnansweredIsLatest(h[..n]);
      assert h == h[..n] + [h[n]];
      hide PathEvents, PV.Unanswered, Latest;
      UnansweredNext(h[..n], h[n]);
    }
  }

  /**
   * A challenge that was waiting and is not waiting any more was answered: after the latest challenge, which may be a
   * later one, its own token came back.
   */
  lemma {:induction false} WaitingEndsByAnAnswer(h: seq<Moment>, from: nat) returns (k: nat)
    requires from <= |h| && PV.Unanswered(PathEvents(h[..from])).Some? && PV.Unanswered(PathEvents(h)).None?
    ensures from <= k < |h| && Answers(h, k)
    decreases |h|
  {
    hide PathEvents, PV.Unanswered;
    assert h[..|h|] == h;
    if from == |h| {
      assert false;
    } else {
      var n := |h| - 1;
      var front := h[..n];
      assert h == front + [h[n]] && front[..from] == h[..from];
      UnansweredNext(front, h[n]);
      UnansweredIsLatest(front);
      if PV.Unanswered(PathEvents(front)).None? {
        k := WaitingEndsByAnAnswer(front, from);
        assert h[..k] == front[..k];
      } else {
        k := n;
      }
    }
  }

  /** The peer had moved before the run and not been validated since, or it moves during the run. */
  ghost predicate PeerMoved(c: Conn, calls: seq<Call>)
    requires Inv(c)
  {
    var past := Run(c, calls).past;
    c.path.pending.Some? || exists j :: |c.past| <= j < |past| && IsChallenge(past[j])
  }

  lemma WaitingBegins(c: Conn, calls: seq<Call>) returns (from: nat)
    requires Inv(c) && c.config.server && PeerMoved(c, calls)
    ensures var past := Run(c, calls).past;
            |c.past| <= from <= |past| && PV.Unanswered(PathEvents(past[..from])).Some?
  {
    hide Inv, Run, PathEvents, PV.Unanswered;
    var past := Run(c, calls).past;
    PendingIsUnanswered(c);
    if c.path.pending.Some? {
      from := |c.past|;
      assert past[..from] == c.past;
    } else {
      var j :| |c.past| <= j < |past| && IsChallenge(past[j]);
      from := j + 1;
      assert past[..from] == past[..j] + [past[j]];
      UnansweredNext(past[..j], past[j]);
    }
  }

  /**
   * A server whose peer has moved is validated at the end of a run only if some call carried a PATH_RESPONSE to the
   * latest challenge after that challenge was made. Answers to superseded challenges, confirming the handshake and
   * further moves do not help.
   */
  lemma OnlyTheLatestAnswerValidates(c: Conn, calls: seq<Call>) returns (i: nat, k: nat)
    requires Inv(c) && c.config.server && PeerMoved(c, calls) && !Run(c, calls).path.Limited()
    ensures var d := Run(c, calls);
            && |c.past| <= k && Answers(d.past, k)
            && i < |calls| && |Run(c, calls[..i]).past| <= k < |Run(c, calls[..i + 1]).past|
            && Carries(calls[i], Latest(d.past).value)
  {
    hide Inv, Run, Causes, Carries, PathEvents, PV.Unanswered;
    var d := Run(c, calls);
    PendingIsUnanswered(d);
    var from := WaitingBegins(c, calls);
    k := WaitingEndsByAnAnswer(d.past, from);
    i := CallOf(c, calls, k);
    ResponsesAreCarried(Run(c, calls[..i]), calls[i], d.past[k]);
  }

  /** Call `i` carries an answer to the challenge that is the latest at the end of the run, once it has been made. */
  ghost predicate AnswersAtTheEnd(c: Conn, calls: seq<Call>, i: nat)
    requires Inv(c) && i < |calls|
  {
    var latest := Latest(Run(c, calls).past);
    latest.Some? && Latest(Run(c, calls[..i + 1]).past) == latest && Carries(calls[i], latest.value)
  }

  lemma TheAnswer(c: Conn, calls: seq<Call>) returns (i: nat)
    requires Inv(c) && c.config.server && PeerMoved(c, calls) && !Run(c, calls).path.Limited()
    ensures i < |calls| && AnswersAtTheEnd(c, calls, i)
  {
    hide Inv, Run, Carries;
    var d := Run(c, calls);
    var k;
    i, k := OnlyTheLatestAnswerValidates(c, calls);
    var e := Run(c, calls[..i + 1]);
    RunContinues(c, calls, i + 1);
    LatestStays(d.past, |e.past|, k);
    assert d.past[..|e.past|] == e.past;
  }

  /** Without such a call the server goes on waiting and the address stays unvalidated. */
  lemma NoAnswerNoValidation(c: Conn, calls: seq<Call>)
    requires Inv(c) && c.config.server && PeerMoved(c, calls)
    requires forall i | 0 <= i < |calls| :: !AnswersAtTheEnd(c, calls, i)
    ensures Run(c, calls).path.Limited()
  {
    hide Inv, Run, AnswersAtTheEnd;
    if !Run(c, calls).path.Limited() {
      var i := TheAnswer(c, calls);
    }
  }

  lemma {:induction false} LatestStays(h: seq<Moment>, n: nat, k: nat)
    requires k < n <= |h| && forall j | k < j < |h| :: !IsChallenge(h[j])
    ensures Latest(h[..n]) == Latest(h)
    decreases |h|
  {
    if n == |h| {
      assert h[..n] == h;
    } else {
      var front := h[..|h| - 1];
      LatestStays(front, n, k);
      assert front[..n] == h[..n];
    }
  }

  /** A run goes on from where its beginning led. */
  lemma {:induction false} RunContinues(c: Conn, calls: seq<Call>, n: nat)
    requires Inv(c) && n <= |calls|
    ensures Run(c, calls[..n]).past <= Run(c, calls).past
    decreases |calls|
  {
    hide Inv, Step;
    if n == |calls| {
      assert calls[..n] == calls;
    } else {
      var front := calls[..|calls| - 1];
      RunContinues(c, front, n);
      assert front[..n] == calls[..n];
      StepKeeps(Run(c, front), calls[|calls| - 1]);
    }
  }

  // ---------------------------------------------------------------- records and reports

  /**
   * Over every run the two records agree; packet numbers rise; each packet is reported at most once, and only if it was
   * sent; and the sending streams are exactly where the calls on them and, for each report, the stream ranges of that
   * packet as it was sent have led them.
   */
  lemma RecordsOverRuns(config: Config, peer: Endpoint, calls: seq<Call>)
    ensures Inv(NewConn(config, peer))
    ensures var c := Run(NewConn(config, peer), calls);
            && Agree(c.books) && Rising(c.books, Emitted(c.past)) && Distinct(Reports(c.past))
            && (forall k | 0 <= k < |Reports(c.past)| ::
                  InLog(Emitted(c.past), Reports(c.past)[k].space, Reports(c.past)[k].number))
            && StartFlow(config).Valid() && FC.Faithful(StartFlow(config), [])
            && c.flow == FC.Run(StartFlow(config), [], StreamEvents(c.past)).0
  {
    hide Emitted, Reports, StreamEvents, Step, Agree, Rising, InLog, ActionsOk, PathOk, FC.Run, FC.Flow.Valid,
      FC.Faithful, RangesNumbered, ReceivedFits;
    NewConnIsOk(config, peer);
    var c := Run(NewConn(config, peer), calls);
    assert Kept(NewConn(config, peer), c);
  }

  /** A packet is told to the streams at most once in a history. */
  lemma ToldAtMostOnce(c: Conn, i: nat, j: nat)
    requires Inv(c) && i < j < |c.past| && c.past[i].Told? && c.past[j].Told?
    ensures c.past[i].space != c.past[j].space || c.past[i].number != c.past[j].number
  {
    hide Agree, Rising, Logged, ActionsOk, PathOk, Flows, NoRecords, RangesNumbered, ReceivedFits, Reports, Emitted,
      Retired;
    ReportPosition(c.past, i);
    ReportPosition(c.past, j);
    ReportsRise(c.past, i, j);
  }

  lemma {:induction false} ReportPosition(h: seq<Moment>, i: nat)
    requires i < |h| && h[i].Told?
    ensures |Reports(h[..i])| < |Reports(h)| && Reports(h)[|Reports(h[..i])|] == Report(h[i].space, h[i].number)
    decreases |h|
  {
    var n := |h| - 1;
    if i < n {
      ReportPosition(h[..n], i);
      assert h[..n][..i] == h[..i];
    }
  }

  lemma {:induction false} ReportsRise(h: seq<Moment>, i: nat, j: nat)
    requires i < j <= |h| && h[i].Told?
    ensures |Reports(h[..i])| < |Reports(h[..j])|
  {
    ReportPosition(h[..j], i);
    assert h[..j][..i] == h[..i];
  }

  /** After the ACK frames of a packet, every outstanding packet they name has been reported. */
  lemma {:induction false} AckFramesReport(c: Conn, s: Space, frames: seq<Frame>, at: int)
    ensures var d := AckFrames(c, s, frames, at);
            && NoneForgotten(c.books, d.books, s, Reports(d.past)) && AcksReported(c.books, s, frames, Reports(d.past))
            && Reports(c.past) <= Reports(d.past)
  {
    hide AckTaken, NoneForgotten, Reports, AckRanges.Expand, IsOutstanding;
    if frames == [] {
      NothingForgotten(c.books, s, Reports(c.past));
    } else {
      var n := |frames| - 1;
      var d, f := AckFrames(c, s, frames[..n], at), frames[n];
      AckFramesReport(c, s, frames[..n], at);
      assert frames == frames[..n] + [f];
      if f.Ack? {
        AckTakenReports(c.books, d, s, f.ack, at);
      }
    }
  }

  lemma NothingForgotten(b: Books, s: Space, reported: seq<Report>)
    ensures NoneForgotten(b, b, s, reported)
  {
  }

  lemma AckTakenReports(b: Books, d: Conn, s: Space, ack: AckFrame, at: int)
    requires NoneForgotten(b, d.books, s, Reports(d.past))
    ensures var e := AckTaken(d, s, ack, at);
            && NoneForgotten(b, e.books, s, Reports(e.past)) && Reports(d.past) <= Reports(e.past)
            && (forall x | x in AckRanges.Expand(ack) && IsOutstanding(b.Get(s).sent, x) ::
                  Report(s, x) in Reports(e.past))
  {
    hide AckApplied, IsOutstanding, Reports, Measured, Resolved, RangesOf, Tolds, AckRanges.Expand;
    var o, e := AckApplied(d.books, s, ack), AckTaken(d, s, ack, at);
    AfterTolds(d.past, s, o.acked, true);
    AfterTolds(d.past + Tolds(s, o.acked, true), s, o.lost, false);
    forall x | IsOutstanding(b.Get(s).sent, x)
      ensures IsOutstanding(e.books.Get(s).sent, x) || Report(s, x) in Reports(e.past)
      ensures x in AckRanges.Expand(ack) ==> Report(s, x) in Reports(e.past)
    {
      AckStepReports(b, d.books, s, ack, Reports(d.past), x);
    }
  }

  // ---------------------------------------------------------------- credit

  /** Over every run the credit used is what the streams sent first, and stays within the limits that were granted. */
  lemma CreditOverRuns(config: Config, peer: Endpoint, calls: seq<Call>, id: nat)
    ensures Inv(NewConn(config, peer))
    ensures var c := Run(NewConn(config, peer), calls);
            var events := StreamEvents(c.past);
            && StartFlow(config).Valid() && FC.Faithful(StartFlow(config), [])
            && var (flow, services) := FC.Run(StartFlow(config), [], events);
               && c.flow == flow
               && FC.Spent(services) == flow.connectionSent == FC.SumSent(flow.streams)
               && flow.connectionSent <= FC.DataLimit(events, config.connectionMax)
               && FC.FirstSent(services, id) <= FC.StateFor(flow, id).bytes
               && |FC.FirstSent(services, id)| <= FC.StreamLimit(events, id, config.streamMaxData)
  {
    hide Inv, StreamEvents, Step, FC.Run, FC.Flow.Valid, FC.Faithful, FC.SumSent;
    RecordsOverRuns(config, peer, calls);
    var c := Run(NewConn(config, peer), calls);
    FC.EveryRunStaysWithinCredit(
      config.streamMaxData, config.bidiLimit, config.uniLimit, config.connectionMax, StreamEvents(c.past), id);
  }

  // ---------------------------------------------------------------- ending streams

  lemma EndingHasNoCause(c: Conn, call: Call, m: Moment)
    requires Causes(c, call, m) && m.OnStreams?
    ensures !m.flow.Ending?
  {
  }

  lemma {:induction false} NoEndingAmong(h: seq<Moment>)
    requires forall i | 0 <= i < |h| && h[i].OnStreams? :: !h[i].flow.Ending?
    ensures forall i | 0 <= i < |StreamEvents(h)| :: !StreamEvents(h)[i].Ending?
  {
    hide SentRanges;
    if h != [] {
      NoEndingAmong(h[..|h| - 1]);
    }
  }

  /**
   * The loop cannot end a stream: no call of it reaches `finish`, so over every run no sender is finished and no frame
   * that is scheduled, then or next, carries a FIN.
   */
  lemma NoStreamIsEverEnded(
    config: Config, peer: Endpoint, calls: seq<Call>, ids: seq<nat>, maxFrames: nat, maxSize: nat)
    ensures Inv(NewConn(config, peer))
    ensures var c := Run(NewConn(config, peer), calls);
            && StartFlow(config).Valid() && FC.Faithful(StartFlow(config), [])
            && FC.NoFins(FC.Run(StartFlow(config), [], StreamEvents(c.past)).1)
            && (forall id | id in c.flow.streams :: !c.flow.streams[id].finished)
            && c.flow.Valid()
            && var frames := FC.Schedule(c.flow, ids, maxFrames, maxSize).1;
               forall i | 0 <= i < |frames| && frames[i].Stream? :: !frames[i].stream.fin
  {
    hide Inv, Run, StreamEvents, Causes, FC.Run, FC.Flow.Valid, FC.Faithful, FC.NoFins, FC.Schedule;
    RecordsOverRuns(config, peer, calls);
    var start := NewConn(config, peer);
    var c := Run(start, calls);
    forall k | 0 <= k < |c.past| && c.past[k].OnStreams?
      ensures !c.past[k].flow.Ending?
    {
      var i := CallOf(start, calls, k);
      EndingHasNoCause(Run(start, calls[..i]), calls[i], c.past[k]);
    }
    NoEndingAmong(c.past);
    NothingToBeginWith(config);
    FC.OnlyEndingEnds(StartFlow(config), [], StreamEvents(c.past));
    InvMeans(c);
    FC.ScheduleCarriesNoFin(c.flow, ids, maxFrames, maxSize);
  }

  lemma NothingToBeginWith(config: Config)
    ensures FC.Unfinished(StartFlow(config)) && FC.NoFins([])
  {
  }

  // ---------------------------------------------------------------- closing

  /**
   * Drivers have taken a prefix of what was emitted; while the connection is not closed, the pending actions are the
   * rest.
   */
  lemma ActionsAreHandedInOrder(c: Conn)
    requires Inv(c)
    ensures HandedOut(c.past) + c.actions <= Emitted(c.past)
    ensures !c.state.Closed? ==> HandedOut(c.past) + c.actions == Emitted(c.past)
  {
    hide Emitted, HandedOut, InOrder, PathOk, Flows, NoRecords;
    assert HandedOut(c.past) + [] == HandedOut(c.past);
  }

  /**
   * At most one close was ever emitted, nothing was emitted after it, and there is one exactly if the connection left.
   */
  lemma AtMostOneClose(c: Conn, i: nat)
    requires Inv(c) && i < |Emitted(c.past)|
    ensures Emitted(c.past)[i].Close? <==> !c.state.Active? && i == |Emitted(c.past)| - 1
    ensures c.state.Active? || Emitted(c.past) != []
  {
    hide Emitted, HandedOut, InOrder, PathOk, Flows, NoRecords;
  }

  lemma {:induction false} EmittedGrows(h: seq<Moment>, k: seq<Moment>)
    requires h <= k
    ensures Emitted(h) <= Emitted(k)
    decreases |k|
  {
    if |h| < |k| {
      EmittedGrows(h, k[..|k| - 1]);
    } else {
      assert h == k;
    }
  }

  /** Closing is final: from a connection that is not active no run emits anything, and the state only moves forward. */
  lemma ClosingIsFinal(c: Conn, calls: seq<Call>)
    requires Inv(c) && !c.state.Active?
    ensures var d := Run(c, calls);
            Emitted(d.past) == Emitted(c.past) && !d.state.Active? && Rank(c.state) <= Rank(d.state)
  {
    hide Emitted, HandedOut, InOrder, PathOk, Flows, NoRecords, Step;
    var d := Run(c, calls);
    EmittedGrows(c.past, d.past);
    assert Emitted(d.past)[|Emitted(c.past)| - 1] == Emitted(c.past)[|Emitted(c.past)| - 1];
  }

  ghost predicate TwoCloses(log: seq<Action>) {
    exists i, j :: 0 <= i < j < |log| && log[i].Close? && log[j].Close?
  }

  /**
   * The guard of `enter_draining` would let a second close out exactly on a closing connection; no run calls it there.
   */
  lemma DrainingTwiceWouldCloseTwice(c: Conn, at: int)
    requires Inv(c)
    ensures TwoCloses(Emitted(ToDraining(c, at).past)) <==> c.state.Closing?
  {
    hide Inv, Emitted, AllCleared;
    var log := Emitted(c.past);
    EmittedNext(c.past, Did(Close));
    forall i | 0 <= i < |log|
      ensures log[i].Close? <==> !c.state.Active? && i == |log| - 1
    {
      AtMostOneClose(c, i);
    }
    LeavingWasEmitted(c);
    var next := log + [Close];
    if c.state.Closing? {
      assert next[|log| - 1].Close? && next[|log|].Close?;
    }
  }

  lemma LeavingWasEmitted(c: Conn)
    requires Inv(c)
    ensures c.state.Active? || Emitted(c.past) != []
  {
    hide InOrder, PathOk, Flows, NoRecords, Emitted, HandedOut;
  }

  // ---------------------------------------------------------------- timers

  /** With the TLS state unchanged, a refresh touches neither the records nor what the timers depend on. */
  lemma QuietRefresh(c: Conn, tls: Option<Tls>)
    requires !c.dirty
    ensures var d := Refreshed(c, tls);
            && SameRecords(c.books, d.books) && !d.dirty && d.state == c.state
            && d.keys == c.keys && d.rtt == c.rtt && d.confirmed == c.confirmed && d.config == c.config
            && (forall s :: TimerIn(d, s) == TimerIn(c, s))
  {
    hide PV.Step, TimerFor;
    forall s
      ensures var x, y := c.books.Get(s), Refreshed(c, tls).books.Get(s); y == x.(queue := y.queue)
    {
    }
  }

  /** Firing an expired timer declares something lost and leaves fewer packets to wait for. */
  lemma FiringLowersWaiting(c: Conn, s: Space, now: int, tls: Option<Tls>)
    requires c.state.Active? && !c.dirty && TimerIn(c, s).Some? && TimerIn(c, s).value.deadline <= now
    ensures var d := TimerFired(c, s, now, tls);
            && d.state.Active? && !d.dirty && Waiting(d.books.recovery) < Waiting(c.books.recovery)
            && TimerResult(c, s, now, tls).0 != []
  {
    hide Refreshed, TimerOf, Waiting, TimerLosses, MarkAll, MarkSent, NextDeadline, LossDelay, ProbeDelay, Resolved,
      RangesOf, Tolds;
    var d := Refreshed(c, tls);
    QuietRefresh(c, tls);
    LiveTimer(d.books, d.keys, d.rtt, d.confirmed, d.config.maxAckDelay, s);
    ExpiredTimerLowersWaiting(d.books, d.keys, d.rtt, d.confirmed, d.config.maxAckDelay, s, now);
  }

  /** The next timer is the earliest there is, and of several that are, the one of the first space. */
  lemma NextTimerIsEarliest(c: Conn, tls: Option<Tls>)
    requires c.state.Active?
    ensures var d, next := Refreshed(c, tls), NextTimer(c, tls);
            && (next.Some? ==> TimerIn(d, next.value.space).Some?
                               && TimerIn(d, next.value.space).value.deadline == next.value.deadline)
            && (forall s :: TimerIn(d, s).Some? ==> next.Some? && next.value.deadline <= TimerIn(d, s).value.deadline)
            && (forall s :: TimerIn(d, s).Some? && Place(s) < Place(next.value.space) ==>
                              next.value.deadline < TimerIn(d, s).value.deadline)
  {
    hide Refreshed, TimerOf;
    forall s
      ensures var t, next := TimerIn(Refreshed(c, tls), s), NextTimer(c, tls);
              t.Some? ==>
                && next.Some? && next.value.deadline <= t.value.deadline
                && (Place(s) < Place(next.value.space) ==> next.value.deadline < t.value.deadline)
    {
      match s
      case InitialSpace =>
      case HandshakeSpace =>
      case AppSpace =>
    }
  }

  /** `next` is the earliest timer of the connection, if it has one. */
  ghost predicate IsNext(c: Conn, next: Option<Alarm>) {
    && (next.Some? ==> TimerIn(c, next.value.space).Some?
                       && TimerIn(c, next.value.space).value.deadline == next.value.deadline)
    && (forall s :: TimerIn(c, s).Some? ==> next.Some? && next.value.deadline <= TimerIn(c, s).value.deadline)
  }

  lemma AskingSettles(c: Conn, tls: Option<Tls>)
    ensures var d, next := NextTimerAsked(c, tls), NextTimer(c, tls);
            d.state == c.state && if c.state.Active? then !d.dirty && IsNext(d, next) else next.None?
    ensures !c.dirty ==> Waiting(NextTimerAsked(c, tls).books.recovery) == Waiting(c.books.recovery)
  {
    hide PV.Step, TimerOf, Enqueue, Swept, Waiting;
    if c.state.Active? {
      NextTimerIsEarliest(c, tls);
    }
    if !c.dirty {
      QuietRefresh(c, tls);
    }
  }
}
