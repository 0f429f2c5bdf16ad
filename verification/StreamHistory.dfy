/**
 * The receive side of a stream read off its history: what is stored, and which frames are taken, in terms of the frames
 * taken before and of nothing else.
 */
module StreamHistory {
  import opened Common
  import opened Frames
  import opened StreamReceive

  /** What can happen to a receiver. */
  datatype Event =
    | Arrives(f: StreamFrame)
    | IsReset(size: nat, code: nat)
    | Allows(limit: nat)

  /** The event is taken: a frame or reset that the receiver accepts, or more credit. */
  ghost predicate Takes(v: View, e: Event) {
    match e
    case Arrives(f) => Accepts(v, f)
    case IsReset(size, code) => AcceptsReset(v, size)
    case Allows(limit) => true
  }

  ghost function After(v: View, e: Event): View {
    if !Takes(v, e) then v else
      match e
      case Arrives(f) => Accept(v, f)
      case IsReset(size, code) => v.(finalSize := Some(size), reset := Some(code))
      case Allows(limit) => v.(maxData := Max(v.maxData, limit))
  }

  ghost function Start(maxData: nat): View {
    View(map[], None, maxData, None)
  }

  ghost function Run(maxData: nat, es: seq<Event>): View {
    if es == [] then Start(maxData) else After(Run(maxData, es[..|es| - 1]), es[|es| - 1])
  }

  /** Event `i` of a run was taken. */
  ghost predicate Taken(maxData: nat, es: seq<Event>, i: nat) {
    i < |es| && Takes(Run(maxData, es[..i]), es[i])
  }

  // ---------------------------------------------------------------- what the history says

  /** The frame puts byte `b` at offset `x`. */
  ghost predicate Puts(f: StreamFrame, x: nat, b: byte) {
    var start := if f.offsetPresent then f.offset else 0;
    start <= x < start + |f.data| && f.data[x - start] == b
  }

  /** Frame `i` was taken and puts `b` at `x`. */
  ghost predicate PutAt(maxData: nat, es: seq<Event>, i: nat, x: nat, b: byte) {
    Taken(maxData, es, i) && es[i].Arrives? && Puts(es[i].f, x, b)
  }

  /** Some frame that was taken puts `b` at `x`. */
  ghost predicate IsPut(maxData: nat, es: seq<Event>, x: nat, b: byte) {
    exists i: nat :: PutAt(maxData, es, i, x, b)
  }

  /** The event, if it is taken, says that the stream has `n` bytes. */
  ghost predicate SaysEnd(e: Event, n: nat) {
    match e
    case Arrives(f) => f.fin && n == (if f.offsetPresent then f.offset else 0) + |f.data|
    case IsReset(size, _) => n == size
    case Allows(_) => false
  }

  ghost predicate EndsAt(maxData: nat, es: seq<Event>, i: nat, n: nat) {
    Taken(maxData, es, i) && SaysEnd(es[i], n)
  }

  /** Some event that was taken says that the stream has `n` bytes. */
  ghost predicate IsEnd(maxData: nat, es: seq<Event>, n: nat) {
    exists i: nat :: EndsAt(maxData, es, i, n)
  }

  ghost predicate WasReset(maxData: nat, es: seq<Event>) {
    exists i: nat :: Taken(maxData, es, i) && es[i].IsReset?
  }

  /** The largest limit so far. */
  ghost function Limit(maxData: nat, es: seq<Event>): nat {
    if es == [] then maxData else
      var before, e := Limit(maxData, es[..|es| - 1]), es[|es| - 1];
      if e.Allows? && before < e.limit then e.limit else before
  }

  /** The receiver holds `b` at `x`. */
  ghost predicate Holds(v: View, x: nat, b: byte) {
    x in v.content && v.content[x] == b
  }

  /** The state of a receiver is what its history says. */
  ghost predicate Agrees(v: View, maxData: nat, es: seq<Event>) {
    && v.maxData == Limit(maxData, es)
    && (v.reset.Some? <==> WasReset(maxData, es))
    && (forall x: nat, b: byte :: Holds(v, x, b) <==> IsPut(maxData, es, x, b))
    && (forall n: nat :: v.finalSize == Some(n) <==> IsEnd(maxData, es, n))
  }

  lemma TakenBefore(maxData: nat, es: seq<Event>, e: Event, i: nat)
    requires i < |es|
    ensures Taken(maxData, es + [e], i) <==> Taken(maxData, es, i)
  {
    assert (es + [e])[..i] == es[..i];
  }

  lemma TakenLast(maxData: nat, es: seq<Event>, e: Event)
    ensures Taken(maxData, es + [e], |es|) <==> Takes(Run(maxData, es), e)
    ensures Run(maxData, es + [e]) == After(Run(maxData, es), e) && Limit(maxData, es + [e]) ==
            if e.Allows? && Limit(maxData, es) < e.limit then e.limit else Limit(maxData, es)
  {
    assert (es + [e])[..|es|] == es;
  }

  lemma ResetNext(maxData: nat, es: seq<Event>, e: Event)
    ensures WasReset(maxData, es + [e]) <==> WasReset(maxData, es) || (e.IsReset? && Takes(Run(maxData, es), e))
  {
    hide Takes, Run;
    TakenLast(maxData, es, e);
    forall i: nat | i < |es|
      ensures Taken(maxData, es + [e], i) <==> Taken(maxData, es, i)
    {
      TakenBefore(maxData, es, e, i);
    }
    hide Taken;
    if WasReset(maxData, es) {
      var i: nat :| Taken(maxData, es, i) && es[i].IsReset?;
      TakenIsInside(maxData, es, i);
      assert Taken(maxData, es + [e], i) && (es + [e])[i].IsReset?;
    }
    if e.IsReset? && Takes(Run(maxData, es), e) {
      assert (es + [e])[|es|] == e;
    }
    if i: nat :| Taken(maxData, es + [e], i) && (es + [e])[i].IsReset? {
      TakenIsInside(maxData, es + [e], i);
      assert i < |es| ==> Taken(maxData, es, i) && es[i].IsReset?;
    }
  }

  lemma TakenIsInside(maxData: nat, es: seq<Event>, i: nat)
    requires Taken(maxData, es, i)
    ensures i < |es|
  {
  }

  lemma PutOne(maxData: nat, es: seq<Event>, e: Event, i: nat, x: nat, b: byte)
    ensures PutAt(maxData, es + [e], i, x, b) <==>
            if i == |es| then e.Arrives? && Takes(Run(maxData, es), e) && Puts(e.f, x, b)
            else PutAt(maxData, es, i, x, b)
  {
    hide Takes, Run, Puts;
    TakenLast(maxData, es, e);
    if i < |es| {
      TakenBefore(maxData, es, e, i);
    }
  }

  lemma PutNext(maxData: nat, es: seq<Event>, e: Event, x: nat, b: byte)
    ensures IsPut(maxData, es + [e], x, b) <==>
            IsPut(maxData, es, x, b) || (e.Arrives? && Takes(Run(maxData, es), e) && Puts(e.f, x, b))
  {
    hide Takes, Run, Puts, PutAt;
    PutOne(maxData, es, e, |es|, x, b);
    if i: nat :| PutAt(maxData, es, i, x, b) {
      PutIsInside(maxData, es, i, x, b);
      PutOne(maxData, es, e, i, x, b);
    }
    if i: nat :| PutAt(maxData, es + [e], i, x, b) {
      PutOne(maxData, es, e, i, x, b);
    }
  }

  lemma PutIsInside(maxData: nat, es: seq<Event>, i: nat, x: nat, b: byte)
    requires PutAt(maxData, es, i, x, b)
    ensures i < |es|
  {
  }

  lemma EndOne(maxData: nat, es: seq<Event>, e: Event, i: nat, n: nat)
    ensures EndsAt(maxData, es + [e], i, n) <==>
            if i == |es| then Takes(Run(maxData, es), e) && SaysEnd(e, n) else EndsAt(maxData, es, i, n)
  {
    hide Takes, Run, SaysEnd;
    TakenLast(maxData, es, e);
    if i < |es| {
      TakenBefore(maxData, es, e, i);
    }
  }

  lemma EndNext(maxData: nat, es: seq<Event>, e: Event, n: nat)
    ensures IsEnd(maxData, es + [e], n) <==>
            IsEnd(maxData, es, n) || (Takes(Run(maxData, es), e) && SaysEnd(e, n))
  {
    hide Takes, Run, SaysEnd, EndsAt;
    EndOne(maxData, es, e, |es|, n);
    if i: nat :| EndsAt(maxData, es, i, n) {
      EndIsInside(maxData, es, i, n);
      EndOne(maxData, es, e, i, n);
    }
    if i: nat :| EndsAt(maxData, es + [e], i, n) {
      EndOne(maxData, es, e, i, n);
    }
  }

  lemma EndIsInside(maxData: nat, es: seq<Event>, i: nat, n: nat)
    requires EndsAt(maxData, es, i, n)
    ensures i < |es|
  {
  }

  /** What one event adds to the state. */
  lemma AfterExactly(v: View, e: Event, x: nat, b: byte, n: nat)
    ensures var w := After(v, e);
            && w.maxData == (if e.Allows? && v.maxData < e.limit then e.limit else v.maxData)
            && (w.reset.Some? <==> v.reset.Some? || (e.IsReset? && Takes(v, e)))
            && (Holds(w, x, b) <==> Holds(v, x, b) || (e.Arrives? && Takes(v, e) && Puts(e.f, x, b)))
            && (w.finalSize == Some(n) <==> v.finalSize == Some(n) || (Takes(v, e) && SaysEnd(e, n)))
  {
    if e.Arrives? && Takes(v, e) {
      var m := FrameBytes(e.f);
      assert x in m && m[x] == b <==> Puts(e.f, x, b);
      assert x in v.content && x in m ==> v.content[x] == m[x];
    }
  }

  lemma {:induction false} HistoryAgrees(maxData: nat, es: seq<Event>)
    ensures Agrees(Run(maxData, es), maxData, es)
  {
    if es == [] {
      assert !WasReset(maxData, es);
    } else {
      var front, e := es[..|es| - 1], es[|es| - 1];
      assert es == front + [e];
      HistoryAgrees(maxData, front);
      AgreesNext(maxData, front, e);
    }
  }

  lemma AgreesNext(maxData: nat, es: seq<Event>, e: Event)
    requires Agrees(Run(maxData, es), maxData, es)
    ensures Agrees(Run(maxData, es + [e]), maxData, es + [e])
  {
    hide Run, After, Takes, IsPut, IsEnd, Holds, Puts, SaysEnd, WasReset, Limit, Taken;
    var v, longer := Run(maxData, es), es + [e];
    TakenLast(maxData, es, e);
    var w := After(v, e);
    AfterExactly(v, e, 0, 0, 0);
    ResetNext(maxData, es, e);
    forall x: nat, b: byte
      ensures Holds(w, x, b) <==> IsPut(maxData, longer, x, b)
    {
      AfterExactly(v, e, x, b, 0);
      PutNext(maxData, es, e, x, b);
    }
    forall n: nat
      ensures w.finalSize == Some(n) <==> IsEnd(maxData, longer, n)
    {
      AfterExactly(v, e, 0, 0, n);
      EndNext(maxData, es, e, n);
    }
  }

  // ---------------------------------------------------------------- which events are taken

  /** The two frames put different bytes at some offset. */
  ghost predicate Clash(f: StreamFrame, g: StreamFrame) {
    exists x: nat, b: byte, c: byte :: Puts(f, x, b) && Puts(g, x, c) && b != c
  }

  /** Frame `f` goes with everything taken before: see `FrameIsTakenExactly`. */
  ghost predicate Fits(maxData: nat, es: seq<Event>, f: StreamFrame) {
    var end := (if f.offsetPresent then f.offset else 0) + |f.data|;
    && !WasReset(maxData, es) && end <= Limit(maxData, es)
    && (forall n: nat | IsEnd(maxData, es, n) :: if f.fin then end == n else end <= n)
    && (forall i: nat | Taken(maxData, es, i) && es[i].Arrives? :: !Clash(es[i].f, f))
  }

  /**
   * A frame is taken exactly if the stream was not reset, the frame ends within the largest limit given so far and
   * within every length stated so far, states no other length itself, and puts no byte where a frame taken before put
   * another.
   */
  lemma FrameIsTakenExactly(maxData: nat, es: seq<Event>, f: StreamFrame)
    ensures Takes(Run(maxData, es), Arrives(f)) <==> Fits(maxData, es, f)
  {
    hide Run, WasReset, Limit, IsEnd, Taken;
    HistoryAgrees(maxData, es);
    var v := Run(maxData, es);
    ClashExactly(maxData, es, f);
    assert v.finalSize.Some? ==> v.finalSize == Some(v.finalSize.value);
  }

  lemma ClashExactly(maxData: nat, es: seq<Event>, f: StreamFrame)
    ensures Agree(Run(maxData, es).content, FrameBytes(f)) <==>
            forall i: nat | Taken(maxData, es, i) && es[i].Arrives? :: !Clash(es[i].f, f)
  {
    hide Run, WasReset, Limit, IsEnd;
    HistoryAgrees(maxData, es);
    var v, m := Run(maxData, es), FrameBytes(f);
    assert forall x: nat, b: byte :: Puts(f, x, b) <==> x in m && m[x] == b;
    if Agree(v.content, m) {
      forall i: nat | Taken(maxData, es, i) && es[i].Arrives?
        ensures !Clash(es[i].f, f)
      {
        forall x: nat, b: byte | Puts(es[i].f, x, b)
          ensures Holds(v, x, b)
        {
          assert PutAt(maxData, es, i, x, b);
        }
      }
    } else {
      var x :| x in v.content && x in m && v.content[x] != m[x];
      assert Holds(v, x, v.content[x]);
      var i: nat :| PutAt(maxData, es, i, x, v.content[x]);
      assert Puts(f, x, m[x]);
      assert Clash(es[i].f, f);
    }
  }

  /**
   * A reset is taken exactly if it states the length every event taken before stated, and no byte lies at or beyond it.
   */
  lemma ResetIsTakenExactly(maxData: nat, es: seq<Event>, size: nat, code: nat)
    ensures Takes(Run(maxData, es), IsReset(size, code)) <==>
            && (forall n: nat | IsEnd(maxData, es, n) :: n == size)
            && (forall x: nat, b: byte | IsPut(maxData, es, x, b) :: x < size)
  {
    hide Run, WasReset, Limit, IsEnd, IsPut;
    HistoryAgrees(maxData, es);
    var v := Run(maxData, es);
    assert v.finalSize.Some? ==> v.finalSize == Some(v.finalSize.value);
    assert forall x | x in v.content :: Holds(v, x, v.content[x]);
  }

  // ---------------------------------------------------------------- bytes and the end of the stream

  /** Two frames that were taken never put different bytes at one offset, and never state different lengths. */
  lemma TakenFramesAgree(maxData: nat, es: seq<Event>, x: nat, b: byte, c: byte, n: nat, m: nat)
    ensures IsPut(maxData, es, x, b) && IsPut(maxData, es, x, c) ==> b == c
    ensures IsEnd(maxData, es, n) && IsEnd(maxData, es, m) ==> n == m
  {
    hide Run, WasReset, Limit, IsEnd, IsPut;
    HistoryAgrees(maxData, es);
    var v := Run(maxData, es);
    assert Holds(v, x, b) <==> IsPut(maxData, es, x, b);
    assert Holds(v, x, c) <==> IsPut(maxData, es, x, c);
  }

  /** A byte lies at or beyond a stated length. */
  ghost predicate Overrun(maxData: nat, es: seq<Event>) {
    exists x: nat, b: byte, n: nat :: IsPut(maxData, es, x, b) && IsEnd(maxData, es, n) && n <= x
  }

  /** A FIN was taken that ends before a byte that had been taken earlier. */
  ghost predicate Undercuts(maxData: nat, es: seq<Event>, i: nat) {
    && Taken(maxData, es, i) && es[i].Arrives? && es[i].f.fin
    && exists x: nat, b: byte, n: nat :: IsPut(maxData, es[..i], x, b) && SaysEnd(es[i], n) && n <= x
  }

  /**
   * A receiver does not hold a frame's FIN against the bytes it has: it ends up with bytes beyond the end of the stream
   * exactly if it took a FIN that ends before a byte taken earlier.
   */
  lemma {:induction false} OverrunExactly(maxData: nat, es: seq<Event>)
    ensures Overrun(maxData, es) <==> exists i: nat :: Undercuts(maxData, es, i)
  {
    if es == [] {
      assert !Overrun(maxData, es);
      assert forall i: nat :: !Undercuts(maxData, es, i);
    } else {
      var front, e := es[..|es| - 1], es[|es| - 1];
      assert es == front + [e];
      OverrunExactly(maxData, front);
      OverrunNext(maxData, front, e);
      UndercutsNext(maxData, front, e);
    }
  }

  lemma UndercutsNext(maxData: nat, es: seq<Event>, e: Event)
    ensures (exists i: nat :: Undercuts(maxData, es + [e], i)) <==>
            (exists i: nat :: Undercuts(maxData, es, i)) || Undercuts(maxData, es + [e], |es|)
  {
    hide Taken, IsPut;
    forall i: nat | i < |es|
      ensures Undercuts(maxData, es + [e], i) <==> Undercuts(maxData, es, i)
    {
      TakenBefore(maxData, es, e, i);
      assert (es + [e])[..i] == es[..i];
    }
    if i: nat :| Undercuts(maxData, es + [e], i) {
      TakenIsInside(maxData, es + [e], i);
    }
    if i: nat :| Undercuts(maxData, es, i) {
      TakenIsInside(maxData, es, i);
      assert Undercuts(maxData, es + [e], i);
    }
  }

  lemma OverrunNext(maxData: nat, es: seq<Event>, e: Event)
    ensures Overrun(maxData, es + [e]) <==> Overrun(maxData, es) || Undercuts(maxData, es + [e], |es|)
  {
    hide IsPut, IsEnd, Run, Takes, WasReset, Limit, Taken, Puts;
    var longer := es + [e];
    assert longer[|es|] == e && longer[..|es|] == es;
    TakenLast(maxData, es, e);
    forall x: nat, b: byte
      ensures IsPut(maxData, longer, x, b) <==>
              IsPut(maxData, es, x, b) || (e.Arrives? && Takes(Run(maxData, es), e) && Puts(e.f, x, b))
    {
      PutNext(maxData, es, e, x, b);
    }
    forall n: nat
      ensures IsEnd(maxData, longer, n) <==> IsEnd(maxData, es, n) || (Takes(Run(maxData, es), e) && SaysEnd(e, n))
    {
      EndNext(maxData, es, e, n);
    }
    if Takes(Run(maxData, es), e) {
      NewEventStaysInside(maxData, es, e);
    }
  }

  /**
   * What a taken event cannot do: put a byte beyond a length stated before, or beyond its own, or reset below a byte.
   */
  lemma NewEventStaysInside(maxData: nat, es: seq<Event>, e: Event)
    requires Takes(Run(maxData, es), e)
    ensures e.Arrives? ==>
              forall x: nat, b: byte, n: nat | Puts(e.f, x, b) && (IsEnd(maxData, es, n) || SaysEnd(e, n)) :: x < n
    ensures e.IsReset? ==> forall x: nat, b: byte | IsPut(maxData, es, x, b) :: x < e.size
  {
    hide IsPut, IsEnd, Run, WasReset, Limit, Taken, Takes;
    match e
    case Arrives(f) => FrameIsTakenExactly(maxData, es, f);
    case IsReset(size, code) => ResetIsTakenExactly(maxData, es, size, code);
    case Allows(_) =>
  }

  /** Two bytes. */
  ghost function Pair(b: byte, c: byte): Event {
    Arrives(StreamFrame(0, 0, true, true, false, [b, c]))
  }

  /** The first of them again, with a FIN. */
  ghost function ShortEnd(b: byte): Event {
    Arrives(StreamFrame(0, 0, true, true, true, [b]))
  }

  lemma BothAreTaken(b: byte, c: byte)
    ensures Takes(Start(2), Pair(b, c)) && Takes(After(Start(2), Pair(b, c)), ShortEnd(b))
  {
    var f, g := Pair(b, c).f, ShortEnd(b).f;
    assert FrameBytes(f)[0] == b && FrameBytes(g)[0] == b;
    assert forall x | x in FrameBytes(g) :: x == 0;
  }

  /** The case exists: two bytes, and then a FIN after the first. */
  lemma FinMayUndercut(b: byte, c: byte)
    ensures Overrun(2, [Pair(b, c)] + [ShortEnd(b)])
  {
    hide Takes, After, IsPut, IsEnd;
    var first := [] + [Pair(b, c)];
    assert first == [Pair(b, c)];
    BothAreTaken(b, c);
    TakenLast(2, [], Pair(b, c));
    PutNext(2, [], Pair(b, c), 1, c);
    assert Puts(Pair(b, c).f, 1, c);
    PutNext(2, first, ShortEnd(b), 1, c);
    EndNext(2, first, ShortEnd(b), 1);
    assert IsPut(2, first + [ShortEnd(b)], 1, c) && IsEnd(2, first + [ShortEnd(b)], 1);
  }
}
