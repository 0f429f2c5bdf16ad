/** The receive side of a stream (stream.hpp): reassembly of overlapping, reordered byte ranges. */
module StreamReceive {
  import opened Common
  import opened Frames

  // ---------------------------------------------------------------- ranges

  /** One entry of the ordered map `pending_`: a run of bytes and the offset it starts at. */
  datatype Segment = Segment(start: nat, data: seq<byte>) {
    function End(): nat {
      start + |data|
    }

    function At(x: nat): byte
      requires start <= x < End()
    {
      data[x - start]
    }

    /** The segment as a partial map from stream offset to byte. */
    ghost function Bytes(): (m: map<nat, byte>)
      ensures forall x: nat {:trigger x in m} :: x in m <==> start <= x < End()
      ensures forall x: nat {:trigger m[x]} | start <= x < End() :: m[x] == data[x - start]
    {
      map x: nat | start <= x < End() :: At(x)
    }
  }

  /** The partial map held by a list of segments. */
  ghost function BytesOf(segs: seq<Segment>): map<nat, byte> {
    if segs == [] then map[] else BytesOf(segs[..|segs| - 1]) + segs[|segs| - 1].Bytes()
  }

  /** Non-empty ranges at or above `low`, in order, with at least one missing byte between neighbours. */
  ghost predicate Separated(segs: seq<Segment>, low: nat) {
    && (forall i | 0 <= i < |segs| :: segs[i].data != [] && low <= segs[i].start)
    && (forall i, j | 0 <= i < j < |segs| :: segs[i].End() < segs[j].start)
  }

  lemma {:induction false} BytesOfConcat(a: seq<Segment>, b: seq<Segment>)
    ensures BytesOf(a + b) == BytesOf(a) + BytesOf(b)
  {
    if b == [] {
      assert a + b == a;
    } else {
      var n := |b| - 1;
      assert (a + b)[..|a + b| - 1] == a + b[..n];
      BytesOfConcat(a, b[..n]);
      MapUnionAssociates(BytesOf(a), BytesOf(b[..n]), b[n].Bytes());
    }
  }

  lemma MapUnionAssociates(a: map<nat, byte>, b: map<nat, byte>, c: map<nat, byte>)
    ensures (a + b) + c == a + (b + c)
  {
  }

  lemma BytesOfOne(s: Segment)
    ensures BytesOf([s]) == s.Bytes()
  {
    assert [s][..0] == [];
  }

  /** Every key of a list lies inside one of its segments. */
  lemma BytesOfKey(segs: seq<Segment>, x: nat) returns (i: nat)
    requires x in BytesOf(segs)
    ensures i < |segs| && segs[i].start <= x < segs[i].End()
  {
    var n := |segs| - 1;
    if x in segs[n].Bytes() {
      i := n;
    } else {
      i := BytesOfKey(segs[..n], x);
    }
  }

  /** In a separated list every byte of every segment is the byte the list holds. */
  lemma BytesOfAt(segs: seq<Segment>, low: nat, i: nat, x: nat)
    requires Separated(segs, low)
    requires i < |segs| && segs[i].start <= x < segs[i].End()
    ensures x in BytesOf(segs) && BytesOf(segs)[x] == segs[i].At(x)
  {
    var n := |segs| - 1;
    if i < n {
      BytesOfAt(segs[..n], low, i, x);
    }
  }

  // ---------------------------------------------------------------- merging

  /** `std::map::lower_bound`: the first entry that starts at or above `x`. */
  function LowerBound(segs: seq<Segment>, x: nat): (i: nat)
    ensures i <= |segs|
    ensures forall j | 0 <= j < i :: segs[j].start < x
    ensures i < |segs| ==> x <= segs[i].start
  {
    if segs == [] || x <= segs[0].start then 0 else 1 + LowerBound(segs[1..], x)
  }

  ghost predicate Inside(segs: seq<Segment>, x: nat) {
    exists i :: 0 <= i < |segs| && segs[i].start <= x < segs[i].End()
  }

  ghost predicate Bounded(segs: seq<Segment>, limit: nat) {
    forall i | 0 <= i < |segs| :: segs[i].End() <= limit
  }

  /** `segs[first..last]` are the entries that `[from, to)` meets, and `[start, end)` is what they span together. */
  ghost predicate Span(
    segs: seq<Segment>, from: nat, to: nat, first: nat, last: nat, start: nat, end: nat)
  {
    && first <= last <= |segs|
    && start <= from && to <= end
    && (forall i | first <= i < last :: start <= segs[i].start && segs[i].End() <= end)
    && (forall x: nat | start <= x < end :: from <= x < to || Inside(segs[first..last], x))
  }

  /** Only the first and the last entry met can stick out of `[from, to)`. */
  lemma SpanOf(segs: seq<Segment>, low: nat, from: nat, to: nat, first: nat, last: nat)
    requires Separated(segs, low) && first < last <= |segs|
    requires from < to && from <= segs[first].End() && segs[last - 1].start <= to
    ensures Span(segs, from, to, first, last, Min(from, segs[first].start), Max(to, segs[last - 1].End()))
  {
    var met := segs[first..last];
    assert met[0] == segs[first] && met[|met| - 1] == segs[last - 1];
    forall x: nat | Min(from, segs[first].start) <= x < Max(to, segs[last - 1].End())
      ensures from <= x < to || Inside(met, x)
    {
      if x < from {
        assert met[0].start <= x < met[0].End();
      } else if to <= x {
        assert met[|met| - 1].start <= x < met[|met| - 1].End();
      }
    }
  }

  lemma FirstTouching(segs: seq<Segment>, low: nat, first: nat, from: nat)
    requires Separated(segs, low) && first <= |segs|
    requires 0 < first ==> segs[first - 1].End() < from
    requires first < |segs| ==> from <= segs[first].End()
    ensures forall i | 0 <= i < first :: segs[i].End() < from
    ensures forall i | first <= i < |segs| :: from <= segs[i].End()
  {
  }

  lemma AfterTouching(segs: seq<Segment>, low: nat, last: nat, end: nat)
    requires Separated(segs, low) && last <= |segs|
    requires last < |segs| ==> end < segs[last].start
    ensures forall i | last <= i < |segs| :: end < segs[i].start
  {
  }

  /** The first entry that reaches `from`; everything before it ends strictly below. */
  method FindFirst(segs: seq<Segment>, low: nat, from: nat) returns (first: nat)
    requires Separated(segs, low)
    ensures first <= |segs|
    ensures forall i | 0 <= i < first :: segs[i].End() < from
    ensures forall i | first <= i < |segs| :: from <= segs[i].End()
  {
    first := LowerBound(segs, from);
    if 0 < first && from <= segs[first - 1].End() {
      first := first - 1;
    }
    FirstTouching(segs, low, first, from);
  }

  /**
   * The entries that overlap or touch `[from, to)`, and the range all of them span together:
   * the entries outside stay clear of it on both sides.
   */
  method FindTouching(segs: seq<Segment>, low: nat, from: nat, to: nat, ghost limit: nat)
    returns (first: nat, last: nat, mergedStart: nat, mergedEnd: nat)
    requires Separated(segs, low) && Bounded(segs, limit)
    requires low <= from < to <= limit
    ensures Span(segs, from, to, first, last, mergedStart, mergedEnd)
    ensures low <= mergedStart && mergedEnd <= limit
    ensures forall i | 0 <= i < first :: segs[i].End() < mergedStart
    ensures forall i | last <= i < |segs| :: mergedEnd < segs[i].start
  {
    first := FindFirst(segs, low, from);
    mergedStart, mergedEnd, last := from, to, first;
    while last < |segs| && segs[last].start <= mergedEnd
      invariant first <= last <= |segs|
      invariant mergedStart == if first == last then from else Min(from, segs[first].start)
      invariant mergedEnd == if first == last then to else Max(to, segs[last - 1].End())
      invariant first < last ==> segs[last - 1].start <= to
    {
      assert first < last ==> segs[last - 1].End() < segs[last].start;
      mergedStart := Min(mergedStart, segs[last].start);
      mergedEnd := Max(mergedEnd, segs[last].End());
      last := last + 1;
    }
    AfterTouching(segs, low, last, mergedEnd);
    if first < last {
      SpanOf(segs, low, from, to, first, last);
    }
  }

  /** The byte-by-byte copy of one range into the merge buffer. */
  method Overwrite(target: Segment, source: Segment) returns (result: Segment)
    requires target.start <= source.start && source.End() <= target.End()
    ensures result.start == target.start && result.End() == target.End()
    ensures result.Bytes() == target.Bytes() + source.Bytes()
  {
    var bytes := target.data;
    var base := source.start - target.start;
    for index := 0 to |source.data|
      invariant |bytes| == |target.data|
      invariant forall k | 0 <= k < |bytes| ::
          bytes[k] == if base <= k < base + index then source.data[k - base] else target.data[k]
    {
      bytes := bytes[base + index := source.data[index]];
    }
    result := Segment(target.start, bytes);
  }

  lemma InsideIsKey(segs: seq<Segment>, low: nat, x: nat)
    requires Separated(segs, low)
    ensures Inside(segs, x) <==> x in BytesOf(segs)
  {
    if Inside(segs, x) {
      var i :| 0 <= i < |segs| && segs[i].start <= x < segs[i].End();
      BytesOfAt(segs, low, i, x);
    }
    if x in BytesOf(segs) {
      var i := BytesOfKey(segs, x);
    }
  }

  /** Rebuilds the spanned range: the old entries first, then the bytes of the new frame over them. */
  method Merge(segs: seq<Segment>, added: Segment, start: nat, end: nat) returns (merged: Segment)
    requires Separated(segs, 0)
    requires Span(segs, added.start, added.End(), 0, |segs|, start, end)
    ensures merged.start == start && merged.End() == end
    ensures merged.Bytes() == BytesOf(segs) + added.Bytes()
  {
    merged := Segment(start, seq(end - start, _ => 0));
    ghost var blank := merged.Bytes();
    for i := 0 to |segs|
      invariant merged.start == start && merged.End() == end
      invariant merged.Bytes() == blank + BytesOf(segs[..i])
    {
      assert segs[..i + 1][..i] == segs[..i];
      MapUnionAssociates(blank, BytesOf(segs[..i]), segs[i].Bytes());
      merged := Overwrite(merged, segs[i]);
    }
    assert segs[..|segs|] == segs;
    merged := Overwrite(merged, added);
    SpanIsFilled(segs, added, start, end);
    BlankDisappears(blank, BytesOf(segs), added.Bytes());
  }

  lemma SpanIsFilled(segs: seq<Segment>, added: Segment, start: nat, end: nat)
    requires Separated(segs, 0)
    requires Span(segs, added.start, added.End(), 0, |segs|, start, end)
    ensures forall x: nat | start <= x < end :: x in BytesOf(segs) || x in added.Bytes()
  {
    assert segs[0..|segs|] == segs;
    forall x: nat | start <= x < end
      ensures x in BytesOf(segs) || x in added.Bytes()
    {
      InsideIsKey(segs, 0, x);
    }
  }

  lemma BlankDisappears(blank: map<nat, byte>, a: map<nat, byte>, b: map<nat, byte>)
    requires forall x | x in blank :: x in a || x in b
    ensures blank + a + b == a + b
  {
  }

  lemma SpliceMaps(a: map<nat, byte>, m: map<nat, byte>, c: map<nat, byte>, added: map<nat, byte>)
    requires forall x | x in c :: x !in added
    ensures a + (m + added) + c == a + m + c + added
  {
  }

  /** Replacing the touched entries by the merged one adds exactly the new bytes. */
  lemma SpliceBytes(segs: seq<Segment>, first: nat, last: nat, merged: Segment, added: map<nat, byte>)
    requires first <= last <= |segs|
    requires merged.Bytes() == BytesOf(segs[first..last]) + added
    requires forall x, i | x in added && last <= i < |segs| :: x < segs[i].start
    ensures BytesOf(segs[..first] + [merged] + segs[last..]) == BytesOf(segs) + added
  {
    hide BytesOf, Segment.Bytes;
    var a, m, c := segs[..first], segs[first..last], segs[last..];
    KeysAbove(segs, last, added);
    BytesOfThree(a, [merged], c);
    BytesOfOne(merged);
    SpliceMaps(BytesOf(a), BytesOf(m), BytesOf(c), added);
    BytesOfThree(a, m, c);
    assert a + m + c == segs;
  }

  lemma BytesOfThree(a: seq<Segment>, b: seq<Segment>, c: seq<Segment>)
    ensures BytesOf(a + b + c) == BytesOf(a) + BytesOf(b) + BytesOf(c)
  {
    BytesOfConcat(a + b, c);
    BytesOfConcat(a, b);
  }

  lemma KeysAbove(segs: seq<Segment>, last: nat, added: map<nat, byte>)
    requires last <= |segs|
    requires forall x, i | x in added && last <= i < |segs| :: x < segs[i].start
    ensures forall x | x in BytesOf(segs[last..]) :: x !in added
  {
    forall x | x in BytesOf(segs[last..])
      ensures x !in added
    {
      var i := BytesOfKey(segs[last..], x);
      assert segs[last..][i] == segs[last + i];
    }
  }

  lemma SuffixIs(offset: nat, data: seq<byte>, next: nat)
    ensures offset + |data| <= next || data == [] ==> Suffix(offset, data, next) == map[]
    ensures var from := Max(offset, next);
            from < offset + |data| ==> Suffix(offset, data, next) == Segment(from, data[from - offset..]).Bytes()
  {
  }

  /** Adds the part of a frame at or above `next` to the ordered map. */
  method Insert(segs: seq<Segment>, next: nat, ghost limit: nat, offset: nat, data: seq<byte>)
    returns (result: seq<Segment>)
    requires Separated(segs, next) && Bounded(segs, limit)
    requires offset + |data| <= limit
    ensures Separated(result, next) && Bounded(result, limit)
    ensures BytesOf(result) == BytesOf(segs) + Suffix(offset, data, next)
  {
    hide BytesOf, Segment.Bytes, Inside, Separated, Bounded, Suffix;
    var from, to := Max(offset, next), offset + |data|;
    SuffixIs(offset, data, next);
    if to <= from {
      return segs;
    }
    var added := Segment(from, data[from - offset..]);
    var first, last, start, end := FindTouching(segs, next, from, to, limit);
    hide Span;
    result := Replace(segs, next, limit, added, first, last, start, end);
  }

  /** Puts one merged range in the place of those that `added` touches. */
  method Replace(
    segs: seq<Segment>, ghost low: nat, ghost limit: nat, added: Segment, first: nat, last: nat, start: nat, end: nat)
    returns (result: seq<Segment>)
    requires Separated(segs, low) && Bounded(segs, limit) && added.data != [] && first <= last <= |segs|
    requires Span(segs, added.start, added.End(), first, last, start, end) && low <= start && end <= limit
    requires forall i | 0 <= i < first :: segs[i].End() < start
    requires forall i | last <= i < |segs| :: end < segs[i].start
    ensures Separated(result, low) && Bounded(result, limit)
    ensures BytesOf(result) == BytesOf(segs) + added.Bytes()
  {
    hide BytesOf, Segment.Bytes, Inside, Separated, Bounded;
    SliceSpan(segs, added.start, added.End(), first, last, start, end);
    SliceSeparated(segs, low, first, last);
    var merged := Merge(segs[first..last], added, start, end);
    SpliceBytes(segs, first, last, merged, added.Bytes());
    SpliceSeparated(segs, low, first, last, merged);
    SpliceBounded(segs, limit, first, last, merged);
    result := segs[..first] + [merged] + segs[last..];
  }

  /** Looks an offset up in the only entry that can hold it: the last one that starts at or below it. */
  method Find(segs: seq<Segment>, low: nat, x: nat) returns (b: Option<byte>)
    requires Separated(segs, low)
    ensures b.Some? <==> x in BytesOf(segs)
    ensures b.Some? ==> b.value == BytesOf(segs)[x]
  {
    var after := LowerBound(segs, x + 1);
    if after == 0 {
      BetweenEntries(segs, low, after, x);
      return None;
    }
    var candidate := segs[after - 1];
    if x < candidate.End() {
      BytesOfAt(segs, low, after - 1, x);
      return Some(candidate.At(x));
    }
    BetweenEntries(segs, low, after, x);
    return None;
  }

  lemma BetweenEntries(segs: seq<Segment>, low: nat, after: nat, x: nat)
    requires Separated(segs, low) && after <= |segs|
    requires 0 < after ==> segs[after - 1].End() <= x
    requires after < |segs| ==> x < segs[after].start
    ensures x !in BytesOf(segs)
  {
    hide BytesOf;
    if x in BytesOf(segs) {
      var i := BytesOfKey(segs, x);
    }
  }

  // ---------------------------------------------------------------- abstract receiver

  datatype StreamError = NoError | ProtocolError | FlowControlError

  datatype ReceiveResult = ReceiveResult(
    data: seq<byte>, finalSizeKnown: bool, finalSize: nat, closed: bool, error: StreamError)

  /** What a receiver knows, free of how the bytes are stored: a partial map from offset to byte. */
  datatype View = View(content: map<nat, byte>, finalSize: Option<nat>, maxData: nat, reset: Option<nat>)

  ghost predicate Agree(a: map<nat, byte>, b: map<nat, byte>) {
    forall x | x in a && x in b :: a[x] == b[x]
  }

  ghost function FrameBytes(f: StreamFrame): map<nat, byte> {
    Segment(f.Start(), f.data).Bytes()
  }

  /** The frames a receiver takes: within credit and final size, and in agreement with what it holds. */
  ghost predicate Accepts(v: View, f: StreamFrame) {
    && v.reset.None?
    && f.End() <= v.maxData
    && (v.finalSize.Some? ==> if f.fin then f.End() == v.finalSize.value else f.End() <= v.finalSize.value)
    && Agree(v.content, FrameBytes(f))
  }

  ghost function Accept(v: View, f: StreamFrame): View {
    v.(content := v.content + FrameBytes(f), finalSize := if f.fin then Some(f.End()) else v.finalSize)
  }

  ghost predicate AcceptsReset(v: View, finalSize: nat) {
    && (v.finalSize.Some? ==> v.finalSize.value == finalSize)
    && (forall x | x in v.content :: x < finalSize)
  }

  // ---------------------------------------------------------------- concrete receiver

  class StreamReceiveState {
    var nextOffset: nat
    var maxData: nat
    var delivered: seq<byte>
    var pending: seq<Segment>  // the ordered map from offset to bytes, in key order
    var finalSize: Option<nat>
    var resetReceived: bool
    var resetErrorCode: Option<nat>

    /** The invariant between operations. */
    ghost predicate Valid()
      reads this
    {
      Buffered() && Separated(pending, nextOffset + 1)
    }

    /** The invariant in the middle of `Receive`: the first range may now start at `nextOffset`. */
    ghost predicate Buffered()
      reads this
    {
      && |delivered| == nextOffset <= maxData <= U64_MAX
      && Separated(pending, nextOffset) && Bounded(pending, maxData)
      && (resetReceived <==> resetErrorCode.Some?)
    }

    ghost function Content(): map<nat, byte>
      reads this
    {
      Segment(0, delivered).Bytes() + BytesOf(pending)
    }

    ghost function Abstract(): View
      reads this
    {
      View(Content(), finalSize, maxData, resetErrorCode)
    }

    constructor (maxData: nat)
      requires maxData <= U64_MAX
      ensures Valid() && delivered == [] && Abstract() == View(map[], None, maxData, None)
    {
      nextOffset, delivered, pending := 0, [], [];
      this.maxData := maxData;
      finalSize, resetReceived, resetErrorCode := None, false, None;
    }

    predicate Closed()
      reads this
    {
      resetReceived || (finalSize.Some? && nextOffset == finalSize.value)
    }

    function Outcome(data: seq<byte>, error: StreamError): ReceiveResult
      reads this
    {
      ReceiveResult(data, finalSize.Some?, if finalSize.Some? then finalSize.value else 0, Closed(), error)
    }

    method UpdateMaxData(limit: nat)
      requires Valid() && limit <= U64_MAX
      modifies this`maxData
      ensures Valid()
      ensures Abstract() == old(Abstract()).(maxData := Max(old(maxData), limit))
    {
      maxData := Max(maxData, limit);
    }

    method ByteAt(offset: nat) returns (b: Option<byte>)
      requires Valid()
      ensures b.Some? <==> offset in Content()
      ensures b.Some? ==> b.value == Content()[offset]
    {
      if offset < |delivered| {
        PendingKeys(pending, nextOffset);
        return Some(delivered[offset]);
      }
      b := Find(pending, nextOffset, offset);
    }

    method ValidateOverlap(offset: nat, data: seq<byte>) returns (ok: bool)
      requires Valid()
      ensures ok <==> Agree(Content(), Segment(offset, data).Bytes())
    {
      ghost var content, bytes := Content(), Segment(offset, data).Bytes();
      for index := 0 to |data|
        invariant forall x | x in content && offset <= x < offset + index :: content[x] == data[x - offset]
      {
        var expected := ByteAt(offset + index);
        if expected.Some? && expected.value != data[index] {
          assert bytes[offset + index] == data[index];
          return false;
        }
      }
      return true;
    }

    method BufferNewSuffix(offset: nat, data: seq<byte>)
      requires Valid() && offset + |data| <= maxData
      modifies this`pending
      ensures Buffered()
      ensures BytesOf(pending) == old(BytesOf(pending)) + Suffix(offset, data, nextOffset)
    {
      pending := Insert(pending, nextOffset, maxData, offset, data);
    }

    method DrainContiguous() returns (output: seq<byte>)
      requires Buffered()
      modifies this`nextOffset, this`delivered, this`pending
      ensures Valid()
      ensures Content() == old(Content())
      ensures delivered == old(delivered) + output
    {
      hide BytesOf, Segment.Bytes;
      output := [];
      while pending != [] && pending[0].start == nextOffset
        invariant Buffered()
        invariant Content() == old(Content())
        invariant delivered == old(delivered) + output
        decreases |pending|
      {
        var current := pending[0];
        DrainBytes(delivered, pending);
        output := output + current.data;
        delivered := delivered + current.data;
        nextOffset := nextOffset + |current.data|;
        pending := pending[1..];
      }
    }

    /** The checks made on a STREAM frame before anything changes. */
    method Check(f: StreamFrame) returns (error: StreamError, proposed: Option<nat>)
      requires Valid()
      ensures error.NoError? <==> Accepts(Abstract(), f)
      ensures error.FlowControlError? <==> resetErrorCode.None? && f.End() <= U64_MAX && maxData < f.End()
      ensures proposed == Accept(Abstract(), f).finalSize || !error.NoError?
    {
      proposed := finalSize;
      if resetReceived {
        return ProtocolError, proposed;
      }
      var offset := f.Start();
      if U64_MAX - |f.data| < offset {
        return ProtocolError, proposed;
      }
      var end := offset + |f.data|;
      if maxData < end {
        return FlowControlError, proposed;
      }
      if f.fin {
        if finalSize.Some? && finalSize.value != end {
          return ProtocolError, proposed;
        }
        proposed := Some(end);
      }
      if proposed.Some? && proposed.value < end {
        return ProtocolError, proposed;
      }
      var ok := ValidateOverlap(offset, f.data);
      return if ok then NoError else ProtocolError, proposed;
    }

    /** Takes or rejects one STREAM frame. */
    method Receive(f: StreamFrame) returns (r: ReceiveResult)
      requires Valid()
      modifies this`nextOffset, this`delivered, this`pending, this`finalSize
      ensures Valid()
      ensures r.error.NoError? <==> Accepts(old(Abstract()), f)
      ensures !r.error.NoError? ==> unchanged(this) && r.data == []
      ensures r.error.NoError? ==> Abstract() == Accept(old(Abstract()), f)
      ensures delivered == old(delivered) + r.data
      ensures r.error.FlowControlError? <==>
                old(resetErrorCode).None? && f.End() <= U64_MAX && old(maxData) < f.End()
      ensures r.finalSizeKnown == finalSize.Some? && (finalSize.Some? ==> r.finalSize == finalSize.value)
      ensures r.closed <==> resetErrorCode.Some? || finalSize == Some(|delivered|)
    {
      var error, proposed := Check(f);
      if !error.NoError? {
        return Outcome([], error);
      }
      PendingKeys(pending, nextOffset);
      SuffixIsEnough(delivered, BytesOf(pending), f.Start(), f.data);
      finalSize := proposed;
      BufferNewSuffix(f.Start(), f.data);
      var data := DrainContiguous();
      return Outcome(data, NoError);
    }

    method LargestReceivedOffset() returns (largest: nat)
      requires Valid()
      ensures forall x | x in Content() :: x < largest
      ensures largest == 0 || largest - 1 in Content()
    {
      largest := nextOffset;
      assert pending[..0] == [];
      for i := 0 to |pending|
        invariant forall k | 0 <= k < i :: pending[k].End() <= largest
        invariant nextOffset <= largest
        invariant largest == nextOffset || exists k | 0 <= k < i :: pending[k].End() == largest
      {
        largest := Max(largest, pending[i].End());
      }
      forall x | x in BytesOf(pending)
        ensures x < largest
      {
        var k := BytesOfKey(pending, x);
      }
      if largest != nextOffset {
        var k :| 0 <= k < |pending| && pending[k].End() == largest;
        BytesOfAt(pending, nextOffset, k, largest - 1);
      }
    }

    /** Takes or rejects a RESET_STREAM frame. */
    method Reset(size: nat, errorCode: nat) returns (r: ReceiveResult)
      requires Valid()
      modifies this`finalSize, this`resetReceived, this`resetErrorCode
      ensures Valid()
      ensures r.error.NoError? <==> AcceptsReset(old(Abstract()), size)
      ensures !r.error.NoError? ==> unchanged(this)
      ensures r.error.NoError? ==>
                Abstract() == old(Abstract()).(finalSize := Some(size), reset := Some(errorCode))
      ensures r.data == [] && r.finalSizeKnown == finalSize.Some?
      ensures (finalSize.Some? ==> r.finalSize == finalSize.value) && delivered == old(delivered)
      ensures r.closed <==> resetErrorCode.Some? || finalSize == Some(|delivered|)
    {
      if finalSize.Some? && finalSize.value != size {
        return Outcome([], ProtocolError);
      }
      var largest := LargestReceivedOffset();
      if size < largest {
        return Outcome([], ProtocolError);
      }
      assert AcceptsReset(Abstract(), size);
      finalSize, resetReceived, resetErrorCode := Some(size), true, Some(errorCode);
      return Outcome([], NoError);
    }
  }

  lemma PendingKeys(segs: seq<Segment>, low: nat)
    requires Separated(segs, low)
    ensures forall x | x in BytesOf(segs) :: low <= x
  {
    forall x | x in BytesOf(segs)
      ensures low <= x
    {
      var i := BytesOfKey(segs, x);
    }
  }

  lemma SliceSpan(segs: seq<Segment>, from: nat, to: nat, first: nat, last: nat, start: nat, end: nat)
    requires Span(segs, from, to, first, last, start, end)
    ensures Span(segs[first..last], from, to, 0, last - first, start, end)
  {
    assert segs[first..last][0..last - first] == segs[first..last];
  }

  /** Moving the first range behind the delivered bytes leaves the partial map as it was. */
  lemma DrainBytes(delivered: seq<byte>, pending: seq<Segment>)
    requires pending != [] && pending[0].start == |delivered|
    ensures Segment(0, delivered + pending[0].data).Bytes() + BytesOf(pending[1..])
         == Segment(0, delivered).Bytes() + BytesOf(pending)
  {
    var d, head, rest := Segment(0, delivered).Bytes(), pending[0], pending[1..];
    ConcatBytes(delivered, head.data);
    BytesOfConcat([head], rest);
    BytesOfOne(head);
    assert [head] + rest == pending;
    MapUnionAssociates(d, head.Bytes(), BytesOf(rest));
  }

  lemma ConcatBytes(a: seq<byte>, b: seq<byte>)
    ensures Segment(0, a + b).Bytes() == Segment(0, a).Bytes() + Segment(|a|, b).Bytes()
  {
  }

  /** The bytes of a frame at or above the delivered mark. */
  ghost function Suffix(offset: nat, data: seq<byte>, next: nat): (m: map<nat, byte>)
    ensures forall x: nat {:trigger x in m} :: x in m <==> next <= x && offset <= x < offset + |data|
    ensures forall x: nat {:trigger m[x]} | next <= x && offset <= x < offset + |data| :: m[x] == data[x - offset]
  {
    var from := Max(offset, next);
    if offset + |data| <= from then map[] else Segment(from, data[from - offset..]).Bytes()
  }

  lemma SliceSeparated(segs: seq<Segment>, low: nat, first: nat, last: nat)
    requires Separated(segs, low) && first <= last <= |segs|
    ensures Separated(segs[first..last], 0)
  {
  }

  lemma SpliceBounded(segs: seq<Segment>, limit: nat, first: nat, last: nat, merged: Segment)
    requires Bounded(segs, limit) && first <= last <= |segs| && merged.End() <= limit
    ensures Bounded(segs[..first] + [merged] + segs[last..], limit)
  {
  }

  lemma SpliceSeparated(segs: seq<Segment>, low: nat, first: nat, last: nat, merged: Segment)
    requires Separated(segs, low) && first <= last <= |segs|
    requires merged.data != [] && low <= merged.start
    requires forall i | 0 <= i < first :: segs[i].End() < merged.start
    requires forall i | last <= i < |segs| :: merged.End() < segs[i].start
    ensures Separated(segs[..first] + [merged] + segs[last..], low)
  {
  }

  /** Bytes below the delivered mark are already held, so buffering only the suffix adds the whole frame. */
  lemma SuffixIsEnough(delivered: seq<byte>, rest: map<nat, byte>, offset: nat, data: seq<byte>)
    requires Agree(Segment(0, delivered).Bytes() + rest, Segment(offset, data).Bytes())
    requires forall x | x in rest :: |delivered| <= x
    ensures Segment(0, delivered).Bytes() + (rest + Suffix(offset, data, |delivered|))
         == Segment(0, delivered).Bytes() + rest + Segment(offset, data).Bytes()
  {
    SuffixMaps(Segment(0, delivered).Bytes(), rest, Segment(offset, data).Bytes(),
               Suffix(offset, data, |delivered|), |delivered|);
  }

  lemma SuffixMaps(
    prefix: map<nat, byte>, rest: map<nat, byte>, frame: map<nat, byte>, suffix: map<nat, byte>, next: nat)
    requires forall x: nat :: x in prefix <==> x < next
    requires forall x: nat :: x in suffix <==> x in frame && next <= x
    requires forall x: nat | x in suffix :: suffix[x] == frame[x]
    requires forall x: nat | x in rest :: next <= x
    requires Agree(prefix + rest, frame)
    ensures prefix + (rest + suffix) == prefix + rest + frame
  {
    forall x: nat | x in prefix && x in frame
      ensures frame[x] == prefix[x]
    {
      assert x in prefix + rest;
    }
  }
}
