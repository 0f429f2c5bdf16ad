/** What reassembly promises over whole runs, independent of the order and number of arrivals. */
module Reassembly {
  import opened Common
  import opened Frames
  import opened StreamReceive

  // ---------------------------------------------------------------- one representation per content

  /** The stored form `StreamReceiveState.Valid` keeps, for a given partial map. */
  ghost predicate Stores(delivered: seq<byte>, pending: seq<Segment>, content: map<nat, byte>) {
    && Separated(pending, |delivered| + 1)
    && Segment(0, delivered).Bytes() + BytesOf(pending) == content
  }

  /** The delivered bytes are the longest run from offset zero. */
  lemma DeliveredIsLongestRun(delivered: seq<byte>, pending: seq<Segment>, content: map<nat, byte>)
    requires Stores(delivered, pending, content)
    ensures forall x: nat | x < |delivered| :: x in content && content[x] == delivered[x]
    ensures |delivered| !in content
  {
    PendingKeys(pending, |delivered| + 1);
  }

  /** A run of keys has one end. */
  lemma OneEnd(m: map<nat, byte>, start: nat, a: nat, b: nat)
    requires start <= a && start <= b && a !in m && b !in m
    requires forall x: nat | start <= x < a :: x in m
    requires forall x: nat | start <= x < b :: x in m
    ensures a == b
  {
  }

  lemma FirstSegmentIsForced(p: seq<Segment>, q: seq<Segment>, low: nat)
    requires Separated(p, low) && Separated(q, low) && p != [] && q != []
    requires BytesOf(p) == BytesOf(q)
    ensures p[0] == q[0]
  {
    hide BytesOf;
    var m := BytesOf(p);
    FirstRun(p, low);
    FirstRun(q, low);
    assert p[0].start in m && q[0].start in m;
    OneEnd(m, p[0].start, p[0].End(), q[0].End());
    forall i | 0 <= i < |p[0].data|
      ensures p[0].data[i] == q[0].data[i]
    {
      assert m[p[0].start + i] == p[0].data[i];
    }
  }

  /** The first segment is the run that starts at the smallest key. */
  lemma FirstRun(p: seq<Segment>, low: nat)
    requires Separated(p, low) && p != []
    ensures forall x: nat | p[0].start <= x < p[0].End() ::
              x in BytesOf(p) && BytesOf(p)[x] == p[0].data[x - p[0].start]
    ensures p[0].End() !in BytesOf(p)
    ensures forall x | x in BytesOf(p) :: p[0].start <= x
  {
    hide BytesOf;
    forall x: nat | p[0].start <= x < p[0].End()
      ensures x in BytesOf(p) && BytesOf(p)[x] == p[0].data[x - p[0].start]
    {
      BytesOfAt(p, low, 0, x);
    }
    forall x | x in BytesOf(p)
      ensures p[0].start <= x && x != p[0].End()
    {
      var i := BytesOfKey(p, x);
    }
  }

  lemma {:induction false} SegmentsAreForced(p: seq<Segment>, q: seq<Segment>, low: nat)
    requires Separated(p, low) && Separated(q, low)
    requires BytesOf(p) == BytesOf(q)
    ensures p == q
  {
    if p == [] || q == [] {
      EmptyIsForced(p, low);
      EmptyIsForced(q, low);
    } else {
      FirstSegmentIsForced(p, q, low);
      TailBytes(p, low);
      TailBytes(q, low);
      SegmentsAreForced(p[1..], q[1..], low);
      assert p == [p[0]] + p[1..] && q == [q[0]] + q[1..];
    }
  }

  lemma EmptyIsForced(p: seq<Segment>, low: nat)
    requires Separated(p, low)
    ensures BytesOf(p) == map[] <==> p == []
  {
    if p != [] {
      FirstRun(p, low);
      assert p[0].start in BytesOf(p);
    }
  }

  lemma TailBytes(p: seq<Segment>, low: nat)
    requires Separated(p, low) && p != []
    ensures BytesOf(p[1..]) == BytesOf(p) - p[0].Bytes().Keys
  {
    assert p == [p[0]] + p[1..];
    BytesOfConcat([p[0]], p[1..]);
    BytesOfOne(p[0]);
    forall x | x in BytesOf(p[1..])
      ensures x !in p[0].Bytes()
    {
      var i := BytesOfKey(p[1..], x);
      assert p[1..][i] == p[i + 1];
    }
    UnionMinus(p[0].Bytes(), BytesOf(p[1..]));
  }

  lemma UnionMinus(a: map<nat, byte>, b: map<nat, byte>)
    requires forall x | x in b :: x !in a
    ensures b == (a + b) - a.Keys
  {
  }

  /** Two receivers that hold the same bytes hold them in the same way. */
  lemma OneRepresentation(
    d: seq<byte>, p: seq<Segment>, e: seq<byte>, q: seq<Segment>, content: map<nat, byte>)
    requires Stores(d, p, content) && Stores(e, q, content)
    ensures d == e && p == q
  {
    DeliveredIsLongestRun(d, p, content);
    DeliveredIsLongestRun(e, q, content);
    OneEnd(content, 0, |d|, |e|);
    assert d == e by {
      assert forall i: nat | i < |d| :: content[i] == d[i] && content[i] == e[i];
    }
    PendingKeys(p, |d| + 1);
    PendingKeys(q, |d| + 1);
    UnionMinus(Segment(0, d).Bytes(), BytesOf(p));
    UnionMinus(Segment(0, d).Bytes(), BytesOf(q));
    SegmentsAreForced(p, q, |d| + 1);
  }

  // ---------------------------------------------------------------- whole runs

  ghost function Step(v: View, f: StreamFrame): View {
    if Accepts(v, f) then Accept(v, f) else v
  }

  ghost function ReceiveAll(v: View, fs: seq<StreamFrame>): View
    decreases fs
  {
    if fs == [] then v else ReceiveAll(Step(v, fs[0]), fs[1..])
  }

  /** A frame cut from the stream `bytes`. */
  ghost predicate CutFrom(bytes: seq<byte>, f: StreamFrame) {
    && f.End() <= |bytes|
    && f.data == bytes[f.Start()..f.End()]
    && (f.fin ==> f.End() == |bytes|)
  }

  /** A receiver that has so far seen only the stream `bytes`. */
  ghost predicate Follows(v: View, bytes: seq<byte>) {
    && v.reset.None?
    && |bytes| <= v.maxData
    && (forall x | x in v.content :: x < |bytes| && v.content[x] == bytes[x])
    && (v.finalSize.Some? ==> v.finalSize.value == |bytes|)
  }

  lemma CutFrameIsAccepted(v: View, bytes: seq<byte>, f: StreamFrame)
    requires Follows(v, bytes) && CutFrom(bytes, f)
    ensures Accepts(v, f) && Follows(Accept(v, f), bytes)
  {
    var m := FrameBytes(f);
    forall x: nat | x in m
      ensures x < |bytes| && m[x] == bytes[x]
    {
      assert m[x] == f.data[x - f.Start()];
    }
  }

  ghost predicate Reaches(fs: seq<StreamFrame>, x: nat) {
    exists i :: 0 <= i < |fs| && fs[i].Start() <= x < fs[i].End()
  }

  ghost predicate Finishes(fs: seq<StreamFrame>) {
    exists i :: 0 <= i < |fs| && fs[i].fin
  }

  /** Frames of one stream are all taken, and together they add exactly the offsets they reach. */
  lemma {:induction false} RunOfStream(v: View, bytes: seq<byte>, fs: seq<StreamFrame>)
    requires Follows(v, bytes) && forall i | 0 <= i < |fs| :: CutFrom(bytes, fs[i])
    ensures Follows(ReceiveAll(v, fs), bytes)
    ensures ReceiveAll(v, fs).maxData == v.maxData
    ensures forall x: nat :: x in ReceiveAll(v, fs).content <==> x in v.content || Reaches(fs, x)
    ensures ReceiveAll(v, fs).finalSize.Some? <==> v.finalSize.Some? || Finishes(fs)
    decreases fs
  {
    if fs != [] {
      var f, rest := fs[0], fs[1..];
      CutFrameIsAccepted(v, bytes, f);
      var w := Accept(v, f);
      RunOfStream(w, bytes, rest);
      assert fs == [f] + rest;
      forall x: nat
        ensures Reaches(fs, x) <==> x in FrameBytes(f) || Reaches(rest, x)
      {
        ReachesCons(f, rest, x);
      }
      FinishesCons(f, rest);
    }
  }

  lemma ReachesCons(f: StreamFrame, rest: seq<StreamFrame>, x: nat)
    ensures Reaches([f] + rest, x) <==> f.Start() <= x < f.End() || Reaches(rest, x)
  {
    var fs := [f] + rest;
    assert fs[0] == f;
    if Reaches(rest, x) {
      var i :| 0 <= i < |rest| && rest[i].Start() <= x < rest[i].End();
      assert fs[i + 1] == rest[i];
    }
    if Reaches(fs, x) {
      var i :| 0 <= i < |fs| && fs[i].Start() <= x < fs[i].End();
      assert i == 0 || fs[i] == rest[i - 1];
    }
  }

  lemma FinishesCons(f: StreamFrame, rest: seq<StreamFrame>)
    ensures Finishes([f] + rest) <==> f.fin || Finishes(rest)
  {
    var fs := [f] + rest;
    assert fs[0] == f;
    if Finishes(rest) {
      var i :| 0 <= i < |rest| && rest[i].fin;
      assert fs[i + 1] == rest[i];
    }
  }

  /**
   * Reassembly is independent of order and repetition: two arrival sequences that contain the same
   * frames of one stream leave two receivers in the same state, stored bytes included.
   */
  lemma OrderDoesNotMatter(
    v: View, bytes: seq<byte>, fs: seq<StreamFrame>, gs: seq<StreamFrame>,
    d: seq<byte>, p: seq<Segment>, e: seq<byte>, q: seq<Segment>)
    requires Follows(v, bytes)
    requires forall i | 0 <= i < |fs| :: CutFrom(bytes, fs[i])
    requires forall f :: f in fs <==> f in gs
    requires Stores(d, p, ReceiveAll(v, fs).content) && Stores(e, q, ReceiveAll(v, gs).content)
    ensures ReceiveAll(v, fs) == ReceiveAll(v, gs)
    ensures d == e && p == q
  {
    SameFramesSameView(v, bytes, fs, gs);
    OneRepresentation(d, p, e, q, ReceiveAll(v, fs).content);
  }

  lemma SameFramesSameView(v: View, bytes: seq<byte>, fs: seq<StreamFrame>, gs: seq<StreamFrame>)
    requires Follows(v, bytes)
    requires forall i | 0 <= i < |fs| :: CutFrom(bytes, fs[i])
    requires forall f :: f in fs <==> f in gs
    ensures ReceiveAll(v, fs) == ReceiveAll(v, gs)
  {
    forall i | 0 <= i < |gs|
      ensures CutFrom(bytes, gs[i])
    {
      assert gs[i] in fs;
    }
    RunOfStream(v, bytes, fs);
    RunOfStream(v, bytes, gs);
    var a, b := ReceiveAll(v, fs), ReceiveAll(v, gs);
    forall x: nat
      ensures x in a.content <==> x in b.content
    {
      SameReach(fs, gs, x);
      SameReach(gs, fs, x);
    }
    SameFinish(fs, gs);
    SameFinish(gs, fs);
    SameContent(a.content, b.content, bytes);
  }

  lemma SameContent(a: map<nat, byte>, b: map<nat, byte>, bytes: seq<byte>)
    requires forall x: nat :: x in a <==> x in b
    requires forall x | x in a :: x < |bytes| && a[x] == bytes[x]
    requires forall x | x in b :: x < |bytes| && b[x] == bytes[x]
    ensures a == b
  {
  }

  lemma SameReach(fs: seq<StreamFrame>, gs: seq<StreamFrame>, x: nat)
    requires forall f | f in fs :: f in gs
    ensures Reaches(fs, x) ==> Reaches(gs, x)
  {
    if Reaches(fs, x) {
      var i :| 0 <= i < |fs| && fs[i].Start() <= x < fs[i].End();
      assert fs[i] in gs;
    }
  }

  lemma SameFinish(fs: seq<StreamFrame>, gs: seq<StreamFrame>)
    requires forall f | f in fs :: f in gs
    ensures Finishes(fs) ==> Finishes(gs)
  {
    if Finishes(fs) {
      var i :| 0 <= i < |fs| && fs[i].fin;
      assert fs[i] in gs;
    }
  }

  /** Once every offset has arrived in some frame, the whole stream has been delivered, in order. */
  lemma AllFramesDeliverTheStream(
    v: View, bytes: seq<byte>, fs: seq<StreamFrame>, d: seq<byte>, p: seq<Segment>)
    requires Follows(v, bytes)
    requires forall i | 0 <= i < |fs| :: CutFrom(bytes, fs[i])
    requires forall x: nat | x < |bytes| :: Reaches(fs, x)
    requires Stores(d, p, ReceiveAll(v, fs).content)
    ensures d == bytes && p == []
  {
    RunOfStream(v, bytes, fs);
    var content := ReceiveAll(v, fs).content;
    DeliveredIsLongestRun(d, p, content);
    assert |bytes| !in content;
    OneEnd(content, 0, |d|, |bytes|);
    if p != [] {
      BytesOfAt(p, |d| + 1, 0, p[0].start);
    }
  }

  /** A known final size never changes and bounds every later frame. */
  lemma {:induction false} FinalSizeIsFixed(v: View, fs: seq<StreamFrame>)
    requires v.finalSize.Some?
    ensures ReceiveAll(v, fs).finalSize == v.finalSize
    ensures forall x | x in ReceiveAll(v, fs).content :: x in v.content || x < v.finalSize.value
    decreases fs
  {
    if fs != [] {
      FinalSizeIsFixed(Step(v, fs[0]), fs[1..]);
    }
  }
}
