/** No stranded data: where every sent byte and the FIN are, over every run of a sender. */
module SendLedger {
  import opened Common
  import opened StreamSend

  /** A sender and the ranges it has handed out that are neither acknowledged nor declared lost yet. */
  datatype Ledger = Ledger(s: Sender, inFlight: seq<SendRange>)

  /** `Ack` and `Lose` resolve one range in flight; everything else is a call on the sender. */
  datatype Event =
    | Write(data: seq<byte>)
    | End
    | Send(max: nat)
    | Ack(index: nat)
    | Lose(index: nat)
    | Grant(limit: u64)
    | Halt(code: nat)

  function Without(ranges: seq<SendRange>, i: nat): seq<SendRange>
    requires i < |ranges|
  {
    ranges[..i] + ranges[i + 1..]
  }

  function Step(l: Ledger, e: Event): (r: Ledger)
    requires l.s.Valid()
    ensures r.s.Valid()
  {
    match e
    case Write(data) => l.(s := Append(l.s, data))
    case End => l.(s := Finish(l.s))
    case Grant(limit) => l.(s := Credit(l.s, limit))
    case Halt(code) => l.(s := Stop(l.s, code))
    case Send(max) =>
      PopIsValid(l.s, max);
      var (s, e) := Pop(l.s, max);
      Ledger(s, if e.Some? then l.inFlight + [e.value.range] else l.inFlight)
    case Ack(i) =>
      if |l.inFlight| <= i then l else
        var a := Acknowledged(l.s, l.inFlight[i]);
        UncoveredIsValid(l.s, a);
        Ledger(OnAcked(l.s, l.inFlight[i]), Without(l.inFlight, i))
    case Lose(i) =>
      if |l.inFlight| <= i then l else Ledger(OnLost(l.s, l.inFlight[i]), Without(l.inFlight, i))
  }

  function Run(l: Ledger, es: seq<Event>): (r: Ledger)
    requires l.s.Valid()
    ensures r.s.Valid()
    decreases es
  {
    if es == [] then l else Run(Step(l, es[0]), es[1..])
  }

  lemma PopLostIsValid(s: Sender, max: nat)
    requires s.Valid() && s.lost != []
    ensures PopLost(s, max).0.Valid()
    ensures PopLost(s, max).1.Some? ==> PopLost(s, max).0.ValidSent(PopLost(s, max).1.value.range)
  {
  }

  lemma PopIsValid(s: Sender, max: nat)
    requires s.Valid()
    ensures Pop(s, max).0.Valid()
    ensures Pop(s, max).1.Some? ==> Pop(s, max).0.ValidSent(Pop(s, max).1.value.range)
  {
    KeptIsValid(s);
    var t := s.(lost := SkipAcked(s.acked, s.lost));
    if t.lost != [] {
      PopLostIsValid(t, max);
    }
  }

  // ---------------------------------------------------------------- the invariant

  ghost predicate Hits(ranges: seq<SendRange>, x: nat) {
    exists i :: 0 <= i < |ranges| && ranges[i].offset <= x < ranges[i].End()
  }

  ghost function Fins(ranges: seq<SendRange>): nat {
    if ranges == [] then 0 else Fins(ranges[..|ranges| - 1]) + if ranges[|ranges| - 1].fin then 1 else 0
  }

  ghost predicate AllSent(s: Sender, ranges: seq<SendRange>) {
    forall i | 0 <= i < |ranges| :: s.ValidSent(ranges[i])
  }

  ghost predicate Covered(l: Ledger) {
    forall x: nat | x < l.s.nextUnsent :: Hits(l.s.acked, x) || Hits(l.s.lost, x) || Hits(l.inFlight, x)
  }

  /** The FIN is in at most one place, and the two flags say which. */
  ghost predicate OneFin(l: Ledger) {
    && Fins(l.s.lost) + Fins(l.inFlight) + Fins(l.s.acked) <= 1
    && (l.s.finAcked <==> Fins(l.s.acked) == 1)
    && (!l.s.finSent ==> Fins(l.inFlight) == 0)
    && (l.s.finSent && !l.s.finAcked && l.s.stop.None? ==> Fins(l.inFlight) == 1)
  }

  ghost predicate Accounted(l: Ledger) {
    && l.s.Valid()
    && AllSent(l.s, l.inFlight) && AllSent(l.s, l.s.acked)
    && (l.s.stop.None? ==> Covered(l))
    && OneFin(l)
  }

  // ---------------------------------------------------------------- counting and covering

  lemma {:induction false} FinsConcat(a: seq<SendRange>, b: seq<SendRange>)
    ensures Fins(a + b) == Fins(a) + Fins(b)
  {
    if b == [] {
      assert a + b == a;
    } else {
      assert (a + b)[..|a + b| - 1] == a + b[..|b| - 1];
      FinsConcat(a, b[..|b| - 1]);
    }
  }

  lemma FinsOne(r: SendRange)
    ensures Fins([r]) == if r.fin then 1 else 0
  {
    assert [r][..0] == [];
  }

  lemma {:induction false} FinsWithout(ranges: seq<SendRange>, i: nat)
    requires i < |ranges|
    ensures Fins(ranges) == Fins(Without(ranges, i)) + if ranges[i].fin then 1 else 0
  {
    var a, r, b := ranges[..i], ranges[i], ranges[i + 1..];
    assert ranges == a + [r] + b;
    FinsConcat(a + [r], b);
    FinsConcat(a, [r]);
    FinsOne(r);
    FinsConcat(a, b);
  }

  lemma {:induction false} FinsUncovered(lost: seq<SendRange>, r: SendRange)
    ensures Fins(Uncovered(lost, r)) <= Fins(lost)
  {
    if lost != [] {
      var last := lost[|lost| - 1];
      FinsUncovered(lost[..|lost| - 1], r);
      FinsConcat(Uncovered(lost[..|lost| - 1], r), [last]);
      FinsOne(last);
    }
  }

  lemma {:induction false} FinsSuffix(ranges: seq<SendRange>, k: nat)
    requires k <= |ranges|
    ensures Fins(ranges[k..]) <= Fins(ranges)
  {
    assert ranges == ranges[..k] + ranges[k..];
    FinsConcat(ranges[..k], ranges[k..]);
  }

  /** No FIN can be anywhere while part of the stream is unsent. */
  lemma {:induction false} NoFinBeforeTheEnd(s: Sender, ranges: seq<SendRange>)
    requires AllSent(s, ranges) && (s.nextUnsent < |s.bytes| || !s.finished)
    ensures Fins(ranges) == 0
  {
    if ranges != [] {
      NoFinBeforeTheEnd(s, ranges[..|ranges| - 1]);
    }
  }

  lemma {:induction false} FinIsCounted(ranges: seq<SendRange>, i: nat)
    requires i < |ranges| && ranges[i].fin
    ensures 1 <= Fins(ranges)
  {
    FinsWithout(ranges, i);
  }

  lemma {:induction false} SomeFin(ranges: seq<SendRange>)
    requires 1 <= Fins(ranges)
    ensures exists i :: 0 <= i < |ranges| && ranges[i].fin
  {
    var n := |ranges| - 1;
    if !ranges[n].fin {
      SomeFin(ranges[..n]);
      var i :| 0 <= i < n && ranges[..n][i].fin;
      assert ranges[i].fin;
    }
  }

  lemma HitsConcat(a: seq<SendRange>, b: seq<SendRange>, x: nat)
    ensures Hits(a + b, x) <==> Hits(a, x) || Hits(b, x)
  {
    if Hits(a, x) {
      var i :| 0 <= i < |a| && a[i].offset <= x < a[i].End();
      assert (a + b)[i] == a[i];
    }
    if Hits(b, x) {
      var i :| 0 <= i < |b| && b[i].offset <= x < b[i].End();
      assert (a + b)[|a| + i] == b[i];
    }
    if Hits(a + b, x) {
      var i :| 0 <= i < |a + b| && (a + b)[i].offset <= x < (a + b)[i].End();
      assert if i < |a| then (a + b)[i] == a[i] else (a + b)[i] == b[i - |a|];
    }
  }

  lemma HitsWithout(ranges: seq<SendRange>, i: nat, x: nat)
    requires i < |ranges|
    ensures Hits(ranges, x) ==> Hits(Without(ranges, i), x) || ranges[i].offset <= x < ranges[i].End()
  {
    var a, r, b := ranges[..i], ranges[i], ranges[i + 1..];
    assert ranges == a + [r] + b;
    HitsConcat(a + [r], b, x);
    HitsConcat(a, [r], x);
    HitsOne(r, x);
    HitsConcat(a, b, x);
  }

  lemma HitsOne(r: SendRange, x: nat)
    ensures Hits([r], x) <==> r.offset <= x < r.End()
  {
    if r.offset <= x < r.End() {
      assert [r][0].offset <= x < [r][0].End();
    }
  }

  lemma HitsUncovered(lost: seq<SendRange>, r: SendRange, x: nat)
    ensures Hits(lost, x) ==> Hits(Uncovered(lost, r), x) || r.offset <= x < r.End()
  {
    if Hits(lost, x) {
      var i :| 0 <= i < |lost| && lost[i].offset <= x < lost[i].End();
      UncoveredMembers(lost, r, lost[i]);
    }
  }

  /** A range covered by an acknowledged one hides no byte. */
  lemma HitsCoveredBy(acked: seq<SendRange>, r: SendRange, x: nat)
    requires CoveredBy(acked, r) && r.offset <= x < r.End()
    ensures Hits(acked, x)
  {
    var i :| 0 <= i < |acked| && acked[i].Covers(r);
    assert acked[i].offset <= x < acked[i].End();
  }

  lemma HitsSkipped(acked: seq<SendRange>, lost: seq<SendRange>, x: nat)
    requires Hits(lost, x)
    ensures Hits(SkipAcked(acked, lost), x) || Hits(acked, x)
  {
    var k := SkipAckedIsSuffix(acked, lost);
    var i :| 0 <= i < |lost| && lost[i].offset <= x < lost[i].End();
    if i < k {
      HitsCoveredBy(acked, lost[i], x);
    } else {
      assert lost[k..][i - k] == lost[i];
    }
  }

  // ---------------------------------------------------------------- every step keeps the books

  lemma AckKeepsCover(l: Ledger, i: nat, x: nat)
    requires i < |l.inFlight|
    requires Hits(l.s.acked, x) || Hits(l.s.lost, x) || Hits(l.inFlight, x)
    ensures var r := l.inFlight[i];
            Hits(l.s.acked + [r], x) || Hits(Uncovered(l.s.lost, r), x) || Hits(Without(l.inFlight, i), x)
  {
    var r := l.inFlight[i];
    HitsConcat(l.s.acked, [r], x);
    HitsOne(r, x);
    HitsUncovered(l.s.lost, r, x);
    HitsWithout(l.inFlight, i, x);
  }

  /** The ledger after an acknowledgement: a range in flight always keeps its FIN mark. */
  ghost function AfterAck(l: Ledger, i: nat): Ledger
    requires i < |l.inFlight|
  {
    var r, s := l.inFlight[i], l.s;
    Ledger(s.(acked := s.acked + [r], lost := Uncovered(s.lost, r), finAcked := s.finAcked || r.fin),
           Without(l.inFlight, i))
  }

  lemma AckKeepsOneFin(l: Ledger, i: nat)
    requires i < |l.inFlight| && OneFin(l)
    ensures OneFin(AfterAck(l, i))
  {
    var r := l.inFlight[i];
    FinsWithout(l.inFlight, i);
    FinsConcat(l.s.acked, [r]);
    FinsOne(r);
    FinsUncovered(l.s.lost, r);
  }

  lemma AckKeepsBooks(l: Ledger, i: nat)
    requires Accounted(l) && i < |l.inFlight|
    ensures Accounted(Step(l, Ack(i)))
  {
    hide Fins, Hits;
    var r := l.inFlight[i];
    FinsWithout(l.inFlight, i);
    assert Step(l, Ack(i)) == AfterAck(l, i);
    AckKeepsOneFin(l, i);
    UncoveredIsValid(l.s, r);
    forall x: nat | x < l.s.nextUnsent && l.s.stop.None?
      ensures Hits(l.s.acked + [r], x) || Hits(Uncovered(l.s.lost, r), x) || Hits(Without(l.inFlight, i), x)
    {
      AckKeepsCover(l, i, x);
    }
  }

  lemma LoseKeepsBooks(l: Ledger, i: nat)
    requires Accounted(l) && i < |l.inFlight|
    ensures Accounted(Step(l, Lose(i)))
  {
    hide Fins, Hits;
    var r, l' := l.inFlight[i], Step(l, Lose(i));
    FinsWithout(l.inFlight, i);
    FinsConcat(l.s.lost, [r]);
    FinsOne(r);
    if r.fin && l.s.IsAcked(r) {
      var k :| 0 <= k < |l.s.acked| && l.s.acked[k].Covers(r);
      FinIsCounted(l.s.acked, k);
    }
    forall x: nat | x < l.s.nextUnsent && l.s.stop.None?
      ensures Hits(l'.s.acked, x) || Hits(l'.s.lost, x) || Hits(l'.inFlight, x)
    {
      HitsConcat(l.s.lost, [r], x);
      HitsOne(r, x);
      HitsWithout(l.inFlight, i, x);
      if l.s.IsAcked(r) && r.offset <= x < r.End() {
        HitsCoveredBy(l.s.acked, r, x);
      }
    }
  }

  lemma SkipKeepsBooks(l: Ledger)
    requires Accounted(l)
    ensures Accounted(l.(s := l.s.(lost := SkipAcked(l.s.acked, l.s.lost))))
  {
    KeptIsValid(l.s);
    var k := SkipAckedIsSuffix(l.s.acked, l.s.lost);
    FinsSuffix(l.s.lost, k);
    forall x: nat | x < l.s.nextUnsent && Hits(l.s.lost, x)
      ensures Hits(SkipAcked(l.s.acked, l.s.lost), x) || Hits(l.s.acked, x)
    {
      HitsSkipped(l.s.acked, l.s.lost, x);
    }
  }

  /** Handing out the front of the queue, whole or in part, moves bytes and FIN but loses neither. */
  lemma PopLostConserves(lost: seq<SendRange>, kept: seq<SendRange>, inFlight: seq<SendRange>, r: SendRange)
    requires lost != []
    requires
      || (r == lost[0] && kept == lost[1..])
      || (kept != [] && kept[1..] == lost[1..] && !r.fin && kept[0].fin == lost[0].fin
          && r.offset == lost[0].offset && kept[0].offset == r.End() && kept[0].End() == lost[0].End())
    ensures Fins(kept) + Fins(inFlight + [r]) == Fins(lost) + Fins(inFlight)
    ensures Fins(inFlight + [r]) == Fins(inFlight) + if r.fin then 1 else 0
    ensures forall x: nat | Hits(lost, x) || Hits(inFlight, x) :: Hits(kept, x) || Hits(inFlight + [r], x)
  {
    var first, rest := lost[0], lost[1..];
    FinsFirst(lost);
    FinsConcat(inFlight, [r]);
    FinsOne(r);
    if kept != rest {
      FinsFirst(kept);
    }
    forall x: nat | Hits(lost, x) || Hits(inFlight, x)
      ensures Hits(kept, x) || Hits(inFlight + [r], x)
    {
      HitsFirst(lost, x);
      HitsConcat(inFlight, [r], x);
      HitsOne(r, x);
      if kept != rest {
        HitsFirst(kept, x);
      }
    }
  }

  lemma FinsFirst(ranges: seq<SendRange>)
    requires ranges != []
    ensures Fins(ranges) == Fins(ranges[1..]) + if ranges[0].fin then 1 else 0
  {
    FinsWithout(ranges, 0);
    assert Without(ranges, 0) == ranges[1..];
  }

  lemma HitsFirst(ranges: seq<SendRange>, x: nat)
    requires ranges != []
    ensures Hits(ranges, x) <==> Hits(ranges[1..], x) || ranges[0].offset <= x < ranges[0].End()
  {
    assert ranges == [ranges[0]] + ranges[1..];
    HitsConcat([ranges[0]], ranges[1..], x);
    HitsOne(ranges[0], x);
  }

  lemma PopLostKeepsBooks(l: Ledger, max: nat)
    requires Accounted(l) && l.s.stop.None? && l.s.lost != []
    ensures var (s, e) := PopLost(l.s, max);
            Accounted(Ledger(s, if e.Some? then l.inFlight + [e.value.range] else l.inFlight))
  {
    hide Fins, Hits;
    var (s, e) := PopLost(l.s, max);
    if e.Some? {
      PopLostIsValid(l.s, max);
      PopLostConserves(l.s.lost, s.lost, l.inFlight, e.value.range);
    }
  }

  lemma PopNewKeepsBooks(l: Ledger, max: nat)
    requires Accounted(l) && l.s.stop.None? && l.s.lost == []
    ensures var (s, e) := PopNew(l.s, max);
            Accounted(Ledger(s, if e.Some? then l.inFlight + [e.value.range] else l.inFlight))
  {
    var (s, e) := PopNew(l.s, max);
    if e.Some? {
      var r := e.value.range;
      FinsConcat(l.inFlight, [r]);
      FinsOne(r);
      if l.s.nextUnsent < |l.s.bytes| {
        NoFinBeforeTheEnd(l.s, l.inFlight);
        NoFinBeforeTheEnd(l.s, l.s.acked);
      }
      forall x: nat | x < s.nextUnsent
        ensures Hits(s.acked, x) || Hits(s.lost, x) || Hits(l.inFlight + [r], x)
      {
        HitsConcat(l.inFlight, [r], x);
        HitsOne(r, x);
      }
    }
  }

  lemma StepKeepsBooks(l: Ledger, e: Event)
    requires Accounted(l)
    ensures Accounted(Step(l, e))
  {
    hide Fins, Hits;
    match e
    case Ack(i) =>
      if i < |l.inFlight| {
        AckKeepsBooks(l, i);
      }
    case Lose(i) =>
      if i < |l.inFlight| {
        LoseKeepsBooks(l, i);
      }
    case Send(max) =>
      if l.s.stop.None? {
        var t := l.(s := l.s.(lost := SkipAcked(l.s.acked, l.s.lost)));
        SkipKeepsBooks(l);
        if t.s.lost != [] {
          PopLostKeepsBooks(t, max);
        } else {
          PopNewKeepsBooks(t, max);
        }
      }
    case Write(data) =>
      if CanAppend(l.s, data) {
        NoFinBeforeTheEnd(l.s, l.inFlight);
        NoFinBeforeTheEnd(l.s, l.s.acked);
        NoFinBeforeTheEnd(l.s, l.s.lost);
      }
    case End =>
    case Grant(limit) =>
    case Halt(code) =>
      HaltKeepsBooks(l, code);
  }

  lemma HaltKeepsBooks(l: Ledger, code: nat)
    requires Accounted(l)
    ensures Accounted(Step(l, Halt(code)))
  {
    assert Fins([]) == 0;
  }

  /**
   * No stranded data, over every run: while the peer has not asked to stop, each sent byte is acknowledged,
   * queued for retransmission or in flight; and the FIN is never in two places.
   */
  lemma {:induction false} EveryRunKeepsBooks(l: Ledger, es: seq<Event>)
    requires Accounted(l)
    ensures Accounted(Run(l, es))
    decreases es
  {
    if es != [] {
      StepKeepsBooks(l, es[0]);
      EveryRunKeepsBooks(Step(l, es[0]), es[1..]);
    }
  }

  lemma FreshSenderIsAccounted(streamId: nat, maxData: u64)
    ensures Accounted(Ledger(NewSender(streamId, maxData), []))
  {
  }

  /** In particular of a new stream, whatever is written, acknowledged and lost. */
  lemma NewSenderKeepsBooks(streamId: nat, maxData: u64, es: seq<Event>)
    ensures Accounted(Run(Ledger(NewSender(streamId, maxData), []), es))
  {
    FreshSenderIsAccounted(streamId, maxData);
    EveryRunKeepsBooks(Ledger(NewSender(streamId, maxData), []), es);
  }

  /** When nothing is lost or in flight, every sent byte has been acknowledged. */
  lemma QuietMeansAcknowledged(l: Ledger)
    requires Accounted(l) && l.s.stop.None? && l.s.lost == [] && l.inFlight == []
    ensures forall x: nat | x < l.s.nextUnsent :: Hits(l.s.acked, x)
    ensures l.s.finSent ==> l.s.finAcked
  {
    assert Fins([]) == 0;
  }

  /**
   * A quiet sender is never stuck: it has had everything acknowledged, FIN included, or it is out of credit,
   * or the next call for a frame yields one.
   */
  lemma QuietSenderIsNeverStuck(l: Ledger, max: nat)
    requires Accounted(l) && l.s.stop.None? && l.s.lost == [] && l.inFlight == [] && 0 < max
    ensures Pop(l.s, max).1.None? <==>
            (l.s.Blocked() || (l.s.nextUnsent == |l.s.bytes| && (l.s.finished ==> l.s.finAcked)))
  {
    QuietMeansAcknowledged(l);
  }
}
