/**
 * The peer's address (connection.hpp): the anti-amplification limit of section 8.1 of RFC 9000 and the path
 * validation of section 8.2 after an address change.
 */
module PathValidation {
  import opened Common
  import opened Frames

  const THIRD: nat := U64_MAX / 3

  /** What the loop knows of the peer's address; the two counters saturate. */
  datatype Path = Path(
    server: bool, validated: bool, received: u64, sent: u64,
    migrated: bool, pending: Option<PathToken>, queued: bool)
  {
    predicate Limited() {
      server && !validated
    }

    /** A migrated path has a challenge to be answered. */
    predicate Valid() {
      (migrated <==> pending.Some?) && (migrated ==> Limited())
    }
  }

  function NewPath(server: bool, validated: bool): Path {
    Path(server, validated, 0, 0, false, None, false)
  }

  function SaturatingAdd(target: u64, value: u64): u64 {
    if U64_MAX - target < value then U64_MAX else target + value
  }

  function Received(p: Path, size: u64): Path {
    if p.Limited() then p.(received := SaturatingAdd(p.received, size)) else p
  }

  function Emitted(p: Path, size: u64): Path {
    if p.Limited() then p.(sent := SaturatingAdd(p.sent, size)) else p
  }

  /** `anti_amplification_allows`. */
  predicate Allows(p: Path, size: u64) {
    || !p.Limited()
    || THIRD < p.received
    || (p.sent <= p.received * 3 && size <= p.received * 3 - p.sent)
  }

  /** A confirmed handshake validates the address it began with, never a migrated one. */
  function Refreshed(p: Path, confirmed: bool): Path {
    if p.Limited() && !p.migrated && p.pending.None? && confirmed then p.(validated := true) else p
  }

  /** A server that hears from a new address starts over with it. */
  function Adopted(p: Path, token: PathToken): Path {
    if p.server then Path(true, false, 0, 0, true, Some(token), false) else p
  }

  function Answered(p: Path, token: PathToken): Path {
    if p.pending == Some(token) then Path(p.server, true, 0, 0, false, None, false) else p
  }

  /** A new address for which no challenge could be made; the connection closes at once. */
  function Unmet(p: Path): Path {
    if p.server
    then p.(validated := false, received := 0, sent := 0, migrated := true, queued := p.queued && p.pending.None?)
    else p
  }

  // ---------------------------------------------------------------- runs

  datatype Event =
    | Arrival(size: u64)
    | Departure(size: u64)
    | Refresh(confirmed: bool)
    | NewPeer(token: PathToken)
    | Unchallenged
    | Response(token: PathToken)
    | Queueing

  /** A datagram the limit does not allow is not sent. */
  function Step(p: Path, e: Event): Path {
    match e
    case Arrival(size) => Received(p, size)
    case Departure(size) => if Allows(p, size) then Emitted(p, size) else p
    case Refresh(confirmed) => Refreshed(p, confirmed)
    case NewPeer(token) => Adopted(p, token)
    case Unchallenged => Unmet(p)
    case Response(token) => Answered(p, token)
    case Queueing => if p.pending.Some? then p.(queued := true) else p
  }

  /** The bytes really received from and sent to the present address since it was adopted. */
  datatype Meter = Meter(received: nat, sent: nat)

  ghost function Count(p: Path, m: Meter, e: Event): Meter {
    match e
    case Arrival(size) => m.(received := m.received + size)
    case Departure(size) => if Allows(p, size) then m.(sent := m.sent + size) else m
    case NewPeer(_) => if p.server then Meter(0, 0) else m
    case Unchallenged => if p.server then Meter(0, 0) else m
    case _ => m
  }

  /** Counters against true counts, while the address is unvalidated. */
  ghost predicate Metered(p: Path, m: Meter) {
    p.Limited() ==>
      && p.received == Min(m.received, U64_MAX) && p.sent == Min(m.sent, U64_MAX)
      && (m.received <= THIRD ==> m.sent <= 3 * m.received)
  }

  /**
   * A challenge counts as queued from the moment it is queued until the peer moves again or answers it.
   */
  lemma QueuedNext(p: Path, e: Event)
    requires p.queued ==> p.pending.Some?
    ensures var q := Step(p, e);
            && (q.queued ==> q.pending.Some?)
            && (q.queued <==>
                  || (e.Queueing? && p.pending.Some?)
                  || (p.queued && !(p.server && (e.NewPeer? || e.Unchallenged?))
                      && !(e.Response? && p.pending == Some(e.token))))
  {
  }

  lemma StepIsMetered(p: Path, m: Meter, e: Event)
    requires Metered(p, m)
    ensures Metered(Step(p, e), Count(p, m, e))
    ensures p.Valid() && !e.Unchallenged? ==> Step(p, e).Valid()
  {
  }

  /**
   * The limit in terms of the bytes really exchanged: a datagram may go to a server's unvalidated peer exactly if three
   * bytes have come for each byte sent with it, or so many have come that the counters no longer tell.
   */
  lemma AllowsExactly(p: Path, m: Meter, size: u64)
    requires Metered(p, m)
    ensures Allows(p, size) <==>
            || !p.server || p.validated
            || m.sent + size <= 3 * m.received || 0x5555_5555_5555_5555 < m.received
  {
  }

  ghost function Run(p: Path, m: Meter, es: seq<Event>): (Path, Meter) {
    if es == [] then (p, m) else
      var n := |es| - 1;
      var (q, k) := Run(p, m, es[..n]);
      (Step(q, es[n]), Count(q, k, es[n]))
  }

  /**
   * Anti-amplification over every run: while the address is unvalidated, at most three bytes have gone out for
   * each byte that came in, as long as no more than a third of 2^64 - 1 bytes have come in; the saturating
   * counters keep the same relation without that proviso.
   */
  lemma {:induction false} EveryRunIsMetered(server: bool, validated: bool, es: seq<Event>)
    ensures var (p, m) := Run(NewPath(server, validated), Meter(0, 0), es);
            && Metered(p, m) && p.server == server
            && (Unchallenged !in es ==> p.Valid()) && (p.queued ==> p.pending.Some?)
            && (p.Limited() && m.received <= THIRD ==> m.sent <= 3 * m.received)
            && (p.Limited() ==> p.sent <= 3 * p.received)
  {
    if es != [] {
      var n := |es| - 1;
      EveryRunIsMetered(server, validated, es[..n]);
      assert es == es[..n] + [es[n]];
      var (p, m) := Run(NewPath(server, validated), Meter(0, 0), es[..n]);
      StepIsMetered(p, m, es[n]);
    }
  }

  function Departures(sizes: seq<u64>): seq<Event> {
    seq(|sizes|, i requires 0 <= i < |sizes| => Departure(sizes[i]))
  }

  /** From here on, no sequence of datagrams the limit lets out exceeds three times what has come in. */
  ghost predicate Bounded(p: Path, m: Meter) {
    forall sizes :: Run(p, m, Departures(sizes)).1.sent <= 3 * m.received
  }

  lemma {:induction false} DeparturesAreMetered(p: Path, m: Meter, sizes: seq<u64>)
    requires p.Limited() && Metered(p, m)
    ensures var (q, k) := Run(p, m, Departures(sizes));
            q.Limited() && Metered(q, k) && k.received == m.received && q.received == p.received
  {
    if sizes != [] {
      var n := |sizes| - 1;
      assert Departures(sizes)[..n] == Departures(sizes[..n]);
      DeparturesAreMetered(p, m, sizes[..n]);
      var (q, k) := Run(p, m, Departures(sizes[..n]));
      StepIsMetered(q, k, Departure(sizes[n]));
    }
  }

  /** Beyond a third of the counter's range nothing is held back. */
  lemma {:induction false} NothingIsHeldBack(p: Path, m: Meter, size: u64, n: nat)
    requires p.Limited() && Metered(p, m) && THIRD < m.received
    ensures Run(p, m, Departures(seq(n, _ => size))).1.sent == m.sent + n * size
  {
    if n != 0 {
      var sizes, shorter := seq(n, _ => size), seq(n - 1, _ => size);
      assert sizes[..n - 1] == shorter;
      assert Departures(sizes)[..n - 1] == Departures(shorter);
      NothingIsHeldBack(p, m, size, n - 1);
      DeparturesAreMetered(p, m, shorter);
      OneMore(n, size);
    }
  }

  lemma OneMore(n: nat, size: nat)
    requires n != 0
    ensures n * size == (n - 1) * size + size
  {
  }

  /**
   * For an unvalidated address the limit is enforced if and only if the received count is at most a third of 2^64 - 1.
   */
  lemma BoundedExactly(p: Path, m: Meter)
    requires p.Limited() && Metered(p, m)
    ensures Bounded(p, m) <==> m.received <= THIRD
  {
    if m.received <= THIRD {
      forall sizes
        ensures Run(p, m, Departures(sizes)).1.sent <= 3 * m.received
      {
        DeparturesAreMetered(p, m, sizes);
      }
    } else {
      NothingIsHeldBack(p, m, 1, 3 * m.received + 1);
      assert Run(p, m, Departures(seq(3 * m.received + 1, _ => 1))).1.sent > 3 * m.received;
    }
  }

  function Arrivals(size: u64, n: nat): seq<Event> {
    seq(n, _ => Arrival(size))
  }

  lemma {:induction false} ArrivalsAdd(size: u64, n: nat)
    ensures var start := NewPath(true, false);
            Run(start, Meter(0, 0), Arrivals(size, n))
              == (start.(received := Min(n * size, U64_MAX)), Meter(n * size, 0))
  {
    if n != 0 {
      assert Arrivals(size, n)[..n - 1] == Arrivals(size, n - 1);
      ArrivalsAdd(size, n - 1);
      OneMore(n, size);
    }
  }

  lemma {:induction false} RunInTwo(p: Path, m: Meter, es: seq<Event>, fs: seq<Event>)
    ensures var (q, k) := Run(p, m, es); Run(p, m, es + fs) == Run(q, k, fs)
  {
    if fs == [] {
      assert es + fs == es;
    } else {
      var n := |fs| - 1;
      assert (es + fs)[..|es| + n] == es + fs[..n];
      RunInTwo(p, m, es, fs[..n]);
    }
  }

  /**
   * Datagrams of any one size, 1200 bytes or another: once enough of them have come in, three times as many and one
   * more go out.
   */
  lemma SaturationLetsEverythingOut(size: u64, n: nat)
    requires THIRD < n * size
    ensures var es := Arrivals(size, n) + Departures(seq(3 * n + 1, _ => size));
            var (p, m) := Run(NewPath(true, false), Meter(0, 0), es);
            p.Limited() && m.received == n * size && 3 * m.received < m.sent
  {
    var start, sizes := NewPath(true, false), seq(3 * n + 1, _ => size);
    ArrivalsAdd(size, n);
    var (p, m) := Run(start, Meter(0, 0), Arrivals(size, n));
    RunInTwo(start, Meter(0, 0), Arrivals(size, n), Departures(sizes));
    NothingIsHeldBack(p, m, size, 3 * n + 1);
    DeparturesAreMetered(p, m, sizes);
    ThreeTimesAndOne(n, size);
  }

  lemma ThreeTimesAndOne(n: nat, size: nat)
    requires 0 < n * size
    ensures (3 * n + 1) * size == 3 * (n * size) + size && 0 < size
  {
  }

  // ---------------------------------------------------------------- revalidation

  /** The challenge that is unanswered at the end of a run: the latest one, until its own token comes back. */
  ghost function Unanswered(es: seq<Event>): Option<PathToken> {
    if es == [] then None else
      var before, e := Unanswered(es[..|es| - 1]), es[|es| - 1];
      match e
      case NewPeer(token) => Some(token)
      case Response(token) => if before == Some(token) then None else before
      case _ => before
  }

  /**
   * After an address change a server treats the address as unvalidated until a PATH_RESPONSE carries the token of the
   * latest challenge; nothing else, and in particular no handshake confirmation and no older token, will do.
   */
  lemma {:induction false} OnlyTheAnswerRevalidates(validated: bool, m: Meter, es: seq<Event>)
    ensures var p := Run(NewPath(true, validated), m, es).0;
            && p.server && p.pending == Unanswered(es)
            && (Unanswered(es).Some? ==> p.migrated && p.Limited())
            && (Unchallenged !in es ==> (p.migrated <==> Unanswered(es).Some?))
  {
    if es != [] {
      var n := |es| - 1;
      OnlyTheAnswerRevalidates(validated, m, es[..n]);
      assert es == es[..n] + [es[n]];
    }
  }

  /** The peer's address changes. */
  predicate IsMove(e: Event) {
    e.NewPeer? || e.Unchallenged?
  }

  /** Event `k` is the first response to the challenge at `j`, and no challenge came in between. */
  ghost predicate AnswersAt(es: seq<Event>, j: nat, k: nat) {
    && j < k < |es| && es[j].NewPeer? && es[k] == Response(es[j].token)
    && forall i | j < i < k :: !es[i].NewPeer? && es[i] != Response(es[j].token)
  }

  /**
   * What validates a server's address: it never moved, and it was valid or the handshake was confirmed; or an answer
   * came, and no move after it.
   */
  ghost predicate IsValidated(validated: bool, es: seq<Event>) {
    || ((forall i | 0 <= i < |es| :: !IsMove(es[i])) && (validated || Refresh(true) in es))
    || (exists j: nat, k: nat :: AnswersAt(es, j, k) && forall i | k < i < |es| :: !IsMove(es[i]))
  }

  /** The challenge that waits: the latest one, as long as its token has not come back. */
  ghost predicate WaitsSince(es: seq<Event>, j: nat) {
    j < |es| && es[j].NewPeer? && forall i | j < i < |es| :: !es[i].NewPeer? && es[i] != Response(es[j].token)
  }

  lemma {:induction false} UnansweredExactly(es: seq<Event>)
    ensures forall j: nat | WaitsSince(es, j) :: Unanswered(es) == Some(es[j].token)
    ensures Unanswered(es).Some? ==> exists j: nat :: WaitsSince(es, j)
  {
    if es != [] {
      var n := |es| - 1;
      var front := es[..n];
      UnansweredExactly(front);
      forall j: nat | WaitsSince(es, j)
        ensures Unanswered(es) == Some(es[j].token)
      {
        if j < n {
          assert WaitsSince(front, j);
        }
      }
      if Unanswered(es).Some? {
        if es[n].NewPeer? {
          assert WaitsSince(es, n);
        } else {
          var j: nat :| WaitsSince(front, j);
          assert WaitsSince(es, j);
        }
      }
    }
  }

  lemma AnswerAtTheEnd(es: seq<Event>)
    requires es != []
    ensures var n := |es| - 1;
            (exists j: nat :: AnswersAt(es, j, n)) <==> es[n].Response? && Unanswered(es[..n]) == Some(es[n].token)
  {
    var n := |es| - 1;
    var front := es[..n];
    UnansweredExactly(front);
    if j: nat :| AnswersAt(es, j, n) {
      assert WaitsSince(front, j);
    }
    if es[n].Response? && Unanswered(front) == Some(es[n].token) {
      var j: nat :| WaitsSince(front, j);
      assert AnswersAt(es, j, n);
    }
  }

  lemma AnswersLonger(es: seq<Event>, j: nat, k: nat)
    requires es != [] && k < |es| - 1
    ensures AnswersAt(es, j, k) <==> AnswersAt(es[..|es| - 1], j, k)
  {
  }

  /** One more event: an answer validates, a move undoes it, and confirming validates an address that never moved. */
  lemma ValidatedNext(validated: bool, es: seq<Event>)
    requires es != []
    ensures var n := |es| - 1;
            IsValidated(validated, es) <==>
            || (es[n].Response? && Unanswered(es[..n]) == Some(es[n].token))
            || (!IsMove(es[n]) && IsValidated(validated, es[..n]))
            || (es[n] == Refresh(true) && forall i | 0 <= i < n :: !IsMove(es[..n][i]))
  {
    hide Unanswered;
    var n := |es| - 1;
    var front := es[..n];
    assert es == front + [es[n]];
    AnswerAtTheEnd(es);
    if !IsMove(es[n]) && IsValidated(validated, front) {
      if j: nat, k: nat :| AnswersAt(front, j, k) && forall i | k < i < n :: !IsMove(front[i]) {
        AnswersLonger(es, j, k);
      }
    }
    if es[n].Response? && Unanswered(front) == Some(es[n].token) {
      var j: nat :| AnswersAt(es, j, n);
    }
    if j: nat, k: nat :| AnswersAt(es, j, k) && (forall i | k < i < |es| :: !IsMove(es[i])) && k < n {
      AnswersLonger(es, j, k);
      assert AnswersAt(front, j, k) && forall i | k < i < n :: !IsMove(front[i]);
    }
  }

  /**
   * Exactly when a server's address is not limited, read off the events: it never moved and was valid from the start or
   * the handshake was confirmed, or the latest challenge was answered by its own token and the address has not moved
   * since.
   */
  lemma {:induction false} UnlimitedExactly(validated: bool, m: Meter, es: seq<Event>)
    ensures var p := Run(NewPath(true, validated), m, es).0;
            && (!p.Limited() <==> IsValidated(validated, es))
            && (p.migrated <==> !IsValidated(validated, es) && exists i :: 0 <= i < |es| && IsMove(es[i]))
  {
    OnlyTheAnswerRevalidates(validated, m, es);
    if es != [] {
      var n := |es| - 1;
      UnlimitedExactly(validated, m, es[..n]);
      OnlyTheAnswerRevalidates(validated, m, es[..n]);
      ValidatedNext(validated, es);
      assert es == es[..n] + [es[n]];
      hide IsValidated, Unanswered;
      StepValidates(Run(NewPath(true, validated), m, es[..n]).0, es[n]);
      if i :| 0 <= i < n && IsMove(es[..n][i]) {
        assert IsMove(es[i]);
      }
      if i :| 0 <= i < |es| && IsMove(es[i]) && i < n {
        assert IsMove(es[..n][i]);
      }
    }
  }

  /** A challenge that waits after `n` events, an answer among the others and no move: the address is validated. */
  lemma {:induction false} AnsweredIsValidated(validated: bool, es: seq<Event>, n: nat, token: PathToken)
    requires n <= |es| && Unanswered(es[..n]) == Some(token)
    requires (forall i | n <= i < |es| :: !IsMove(es[i])) && exists i :: n <= i < |es| && es[i] == Response(token)
    ensures IsValidated(validated, es)
    decreases |es|
  {
    hide IsValidated, Unanswered;
    var k := |es| - 1;
    var front := es[..k];
    ValidatedNext(validated, es);
    assert front[..n] == es[..n];
    if exists i :: n <= i < k && front[i] == Response(token) {
      AnsweredIsValidated(validated, front, n, token);
    } else {
      StillWaits(front, n, token);
    }
  }

  lemma {:induction false} StillWaits(es: seq<Event>, n: nat, token: PathToken)
    requires n <= |es| && Unanswered(es[..n]) == Some(token)
    requires forall i | n <= i < |es| :: !IsMove(es[i]) && es[i] != Response(token)
    ensures Unanswered(es) == Some(token)
    decreases |es|
  {
    if n == |es| {
      assert es[..n] == es;
    } else {
      var front := es[..|es| - 1];
      assert front[..n] == es[..n];
      StillWaits(front, n, token);
    }
  }

  lemma StepValidates(p: Path, e: Event)
    requires p.server && (p.pending.Some? ==> p.migrated) && (p.migrated ==> p.Limited())
    ensures var q := Step(p, e);
            && (!q.Limited() <==>
                  || (e.Response? && p.pending == Some(e.token))
                  || (!IsMove(e) && !p.Limited())
                  || (e == Refresh(true) && !p.migrated))
            && (q.migrated <==> IsMove(e) || (p.migrated && q.Limited()))
  {
  }

  lemma RunGrows(p: Path, m: Meter, es: seq<Event>, e: Event)
    ensures Run(p, m, es + [e]) == (Step(Run(p, m, es).0, e), Count(Run(p, m, es).0, Run(p, m, es).1, e))
  {
    assert (es + [e])[..|es|] == es;
  }
}
