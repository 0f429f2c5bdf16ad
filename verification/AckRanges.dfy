/** ACK ranges (ack_loss.hpp, section 19.3.1 of RFC 9000): compression to and expansion from a set of numbers. */
module AckRanges {
  import opened Common
  import opened Frames

  // ---------------------------------------------------------------- expansion

  ghost function Interval(low: nat, high: nat): (s: set<nat>)
    ensures forall n: nat {:trigger n in s} :: n in s <==> low <= n <= high
  {
    set n: nat | low <= n <= high && Within(low, n, high)
  }

  ghost predicate Within(low: nat, n: nat, high: nat) {
    low <= n <= high
  }

  /** `gap + 2` in 64-bit arithmetic: how far the next range lies below the current one. */
  function Skip(gap: u64): u64 {
    if gap + 2 <= U64_MAX then gap + 2 else gap + 2 - U64_MAX - 1
  }

  /** The numbers below `low` that the remaining ranges name; the addition wraps at 64 bits. */
  ghost function ExpandRest(low: nat, ranges: seq<AckRange>): Option<set<nat>>
    decreases ranges
  {
    if ranges == [] then Some({}) else
      var skipped := Skip(ranges[0].gap);
      if low < skipped || low - skipped < ranges[0].length then None else
        var high := low - skipped;
        var rest := ExpandRest(high - ranges[0].length, ranges[1..]);
        if rest.None? then None else Some(Interval(high - ranges[0].length, high) + rest.value)
  }

  /** The numbers a frame acknowledges; a malformed frame acknowledges none. */
  ghost function Expand(f: AckFrame): set<nat> {
    if f.largest < f.firstRange then {} else
      var low := f.largest - f.firstRange;
      var rest := ExpandRest(low, f.ranges);
      Joined(Interval(low, f.largest), rest)
  }

  ghost function Joined(above: set<nat>, rest: Option<set<nat>>): set<nat> {
    if rest.None? then {} else above + rest.value
  }

  lemma JoinStep(above: set<nat>, range: set<nat>, rest: set<nat>)
    ensures Joined(above, Some(range + rest)) == Joined(above + range, Some(rest))
  {
    assert above + (range + rest) == above + range + rest;
  }

  /** The bounded loop of `append_ack_range`; it must not count past the top of the 64-bit range. */
  method AppendRange(packets: set<nat>, low: nat, high: nat) returns (ok: bool, result: set<nat>)
    ensures ok == (low <= high)
    ensures result == if ok then packets + Interval(low, high) else packets
  {
    if low > high {
      return false, packets;
    }
    ok, result := true, packets;
    var packet := low;
    while true
      invariant low <= packet <= high
      invariant result == packets + if packet == low then {} else Interval(low, packet - 1)
      decreases high - packet
    {
      result := result + {packet};
      assert result == packets + Interval(low, packet);
      if packet == high {
        break;
      }
      packet := packet + 1;
    }
  }

  method ExpandAckFrame(f: AckFrame) returns (acknowledged: set<nat>)
    ensures acknowledged == Expand(f)
  {
    if f.largest < f.firstRange {
      return {};
    }
    var low: nat := f.largest - f.firstRange;
    var ok;
    ok, acknowledged := AppendRange({}, low, f.largest);
    for i := 0 to |f.ranges|
      invariant Expand(f) == Joined(acknowledged, ExpandRest(low, f.ranges[i..]))
    {
      var range := f.ranges[i];
      assert f.ranges[i..][0] == range && f.ranges[i..][1..] == f.ranges[i + 1..];
      var skipped := Skip(range.gap);
      if low < skipped {
        return {};
      }
      var high := low - skipped;
      if high < range.length {
        return {};
      }
      low := high - range.length;
      ghost var rest := ExpandRest(low, f.ranges[i + 1..]);
      if rest.Some? {
        JoinStep(acknowledged, Interval(low, high), rest.value);
      }
      ok, acknowledged := AppendRange(acknowledged, low, high);
    }
  }

  // ---------------------------------------------------------------- validity

  ghost predicate RestValid(low: nat, ranges: seq<AckRange>)
    decreases ranges
  {
    ranges == [] ||
    (&& ranges[0].gap + 2 <= U64_MAX
     && ranges[0].gap + 2 + ranges[0].length <= low
     && RestValid(low - ranges[0].gap - 2 - ranges[0].length, ranges[1..]))
  }

  ghost predicate Valid(f: AckFrame) {
    f.firstRange <= f.largest && RestValid(f.largest - f.firstRange, f.ranges)
  }

  /** `ack_ranges_valid` of the connection loop. */
  method RangesValid(f: AckFrame) returns (ok: bool)
    ensures ok <==> Valid(f)
  {
    if f.largest < f.firstRange {
      return false;
    }
    var low: nat := f.largest - f.firstRange;
    for i := 0 to |f.ranges|
      invariant Valid(f) <==> RestValid(low, f.ranges[i..])
    {
      var range := f.ranges[i];
      assert f.ranges[i..][0] == range && f.ranges[i..][1..] == f.ranges[i + 1..];
      if U64_MAX - 2 < range.gap {
        return false;
      }
      var skipped := range.gap + 2;
      if low < skipped {
        return false;
      }
      var high := low - skipped;
      if high < range.length {
        return false;
      }
      low := high - range.length;
    }
    return true;
  }

  ghost predicate GapsFit(ranges: seq<AckRange>) {
    forall i | 0 <= i < |ranges| :: ranges[i].gap + 2 <= U64_MAX
  }

  lemma {:induction false} RestValidIsExpandable(low: nat, ranges: seq<AckRange>)
    ensures RestValid(low, ranges) <==> GapsFit(ranges) && ExpandRest(low, ranges).Some?
    decreases ranges
  {
    if ranges != [] {
      var r, rest := ranges[0], ranges[1..];
      assert ranges == [r] + rest;
      assert GapsFit(ranges) <==> r.gap + 2 <= U64_MAX && GapsFit(rest);
      if r.gap + 2 <= U64_MAX && r.gap + 2 + r.length <= low {
        RestValidIsExpandable(low - r.gap - 2 - r.length, rest);
      }
    }
  }

  /**
   * The check and the expansion agree: a frame is valid exactly when it acknowledges something and none of its
   * gaps overflows. Frames read from the wire satisfy the second half, as their fields are varints.
   */
  lemma ValidMeansSomethingIsAcknowledged(f: AckFrame)
    ensures Valid(f) <==> Expand(f) != {} && GapsFit(f.ranges)
  {
    if f.firstRange <= f.largest {
      RestValidIsExpandable(f.largest - f.firstRange, f.ranges);
      assert f.largest in Interval(f.largest - f.firstRange, f.largest);
    }
  }

  /** Without the bound the two differ: a gap of 2^64 - 2 wraps to a skip of nothing. */
  lemma WrappedGapIsExpanded()
    ensures var f := AckFrame(5, 0, 0, [AckRange(U64_MAX - 1, 0)], None);
            Expand(f) == {5} && !Valid(f)
  {
    var f := AckFrame(5, 0, 0, [AckRange(U64_MAX - 1, 0)], None);
    assert f.ranges[1..] == [];
    assert ExpandRest(5, []) == Some({});
    assert ExpandRest(5, f.ranges) == Some(Interval(5, 5) + {});
  }

  // ---------------------------------------------------------------- what a frame names, range by range

  /** The lowest number of range `i` below `low`. */
  ghost function Floor(low: int, ranges: seq<AckRange>, i: nat): int
    requires i < |ranges|
  {
    (if i == 0 then low else Floor(low, ranges, i - 1)) - ranges[i].gap - 2 - ranges[i].length
  }

  /** A number of range `i`, which is as long as its length says. */
  ghost predicate InRange(low: int, ranges: seq<AckRange>, i: nat, n: nat) {
    i < |ranges| && Floor(low, ranges, i) <= n <= Floor(low, ranges, i) + ranges[i].length
  }

  lemma {:induction false} FloorRest(low: int, ranges: seq<AckRange>, i: nat)
    requires i + 1 < |ranges|
    ensures Floor(Floor(low, ranges, 0), ranges[1..], i) == Floor(low, ranges, i + 1)
  {
    if i != 0 {
      FloorRest(low, ranges, i - 1);
    }
  }

  ghost predicate InSome(low: int, ranges: seq<AckRange>, n: nat) {
    exists i: nat :: InRange(low, ranges, i, n)
  }

  lemma SomeRest(low: int, ranges: seq<AckRange>, n: nat)
    requires ranges != []
    ensures InSome(low, ranges, n) <==> InRange(low, ranges, 0, n) || InSome(Floor(low, ranges, 0), ranges[1..], n)
  {
    var floor, rest := Floor(low, ranges, 0), ranges[1..];
    forall i: nat | i < |rest|
      ensures InRange(floor, rest, i, n) <==> InRange(low, ranges, i + 1, n)
    {
      FloorRest(low, ranges, i);
    }
    if i: nat :| InRange(low, ranges, i, n) {
      assert i == 0 || InRange(floor, rest, i - 1, n);
    }
    if i: nat :| InRange(floor, rest, i, n) {
      assert InRange(low, ranges, i + 1, n);
    }
  }

  lemma {:induction false} RestExactly(low: nat, ranges: seq<AckRange>, n: nat)
    requires RestValid(low, ranges)
    ensures ExpandRest(low, ranges).Some?
    ensures n in ExpandRest(low, ranges).value <==> InSome(low, ranges, n)
    decreases ranges
  {
    if ranges != [] {
      RestExactly(Floor(low, ranges, 0), ranges[1..], n);
      hide InSome;
      SomeRest(low, ranges, n);
    }
  }

  /** No range reaches below zero. */
  ghost predicate AboveZero(low: int, ranges: seq<AckRange>) {
    forall i: nat | i < |ranges| :: 0 <= Floor(low, ranges, i)
  }

  lemma AboveZeroRest(low: int, ranges: seq<AckRange>)
    requires ranges != []
    ensures AboveZero(low, ranges) <==>
            0 <= Floor(low, ranges, 0) && AboveZero(Floor(low, ranges, 0), ranges[1..])
  {
    var floor, rest := Floor(low, ranges, 0), ranges[1..];
    forall i: nat | i < |rest|
      ensures Floor(floor, rest, i) == Floor(low, ranges, i + 1)
    {
      FloorRest(low, ranges, i);
    }
    if 0 <= floor && AboveZero(floor, rest) {
      forall i: nat | i < |ranges|
        ensures 0 <= Floor(low, ranges, i)
      {
        assert i == 0 || Floor(low, ranges, i) == Floor(floor, rest, i - 1);
      }
    }
  }

  lemma {:induction false} RestValidExactly(low: nat, ranges: seq<AckRange>)
    ensures RestValid(low, ranges) <==> GapsFit(ranges) && AboveZero(low, ranges)
    decreases ranges
  {
    if ranges != [] {
      var floor, rest := Floor(low, ranges, 0), ranges[1..];
      assert ranges == [ranges[0]] + rest;
      AboveZeroRest(low, ranges);
      if 0 <= floor {
        RestValidExactly(floor, rest);
      }
    }
  }

  /**
   * A valid frame names the numbers of its ranges: the first down from the largest, each further one two below the one
   * before it and lower by its gap. It is valid exactly if no range reaches below zero and no gap overflows.
   */
  lemma NamesExactly(f: AckFrame, n: nat)
    ensures Valid(f) <==>
            f.firstRange <= f.largest && GapsFit(f.ranges) && AboveZero(f.largest - f.firstRange, f.ranges)
    ensures Valid(f) ==>
              (n in Expand(f) <==>
                 f.largest - f.firstRange <= n <= f.largest || InSome(f.largest - f.firstRange, f.ranges, n))
  {
    hide AboveZero, InSome, GapsFit;
    if f.firstRange <= f.largest {
      RestValidExactly(f.largest - f.firstRange, f.ranges);
      if Valid(f) {
        RestExactly(f.largest - f.firstRange, f.ranges, n);
      }
    }
  }

  // ---------------------------------------------------------------- one frame per set

  lemma {:induction false} RestIsBelow(low: nat, ranges: seq<AckRange>)
    requires RestValid(low, ranges)
    ensures ExpandRest(low, ranges).Some?
    ensures forall n | n in ExpandRest(low, ranges).value :: n + 2 <= low
    ensures ranges != [] ==>
              && low - ranges[0].gap - 2 in ExpandRest(low, ranges).value
              && (forall n | n in ExpandRest(low, ranges).value :: n <= low - ranges[0].gap - 2)
    decreases ranges
  {
    if ranges != [] {
      RestIsBelow(low - ranges[0].gap - 2 - ranges[0].length, ranges[1..]);
    }
  }

  /** An interval followed by at least one missing number below it can be read off the union. */
  lemma TopInterval(low: nat, low': nat, high: nat, a: set<nat>, b: set<nat>)
    requires low <= high && low' <= high
    requires forall n | n in a :: n + 2 <= low
    requires forall n | n in b :: n + 2 <= low'
    requires Interval(low, high) + a == Interval(low', high) + b
    ensures low == low' && a == b
  {
    var all := Interval(low, high) + a;
    assert low == low' by {
      assert low in all && low' in all;
      assert low == 0 || low - 1 !in Interval(low, high) + a;
      assert low' == 0 || low' - 1 !in Interval(low', high) + b;
    }
    assert a == all - Interval(low, high);
    assert b == all - Interval(low, high);
  }

  /** The first remaining range and the numbers below it. */
  lemma FirstOfRest(low: nat, ranges: seq<AckRange>) returns (bottom: nat, top: nat, below: set<nat>)
    requires RestValid(low, ranges) && ranges != []
    ensures top == low - ranges[0].gap - 2 && bottom == top - ranges[0].length
    ensures RestValid(bottom, ranges[1..]) && ExpandRest(bottom, ranges[1..]) == Some(below)
    ensures ExpandRest(low, ranges) == Some(Interval(bottom, top) + below)
    ensures forall n | n in below :: n + 2 <= bottom
  {
    top := low - ranges[0].gap - 2;
    bottom := top - ranges[0].length;
    RestIsBelow(bottom, ranges[1..]);
    below := ExpandRest(bottom, ranges[1..]).value;
  }

  lemma {:induction false} RestIsForced(low: nat, a: seq<AckRange>, b: seq<AckRange>)
    requires RestValid(low, a) && RestValid(low, b)
    requires ExpandRest(low, a) == ExpandRest(low, b)
    ensures a == b
    decreases a
  {
    RestIsBelow(low, a);
    RestIsBelow(low, b);
    if a != [] && b != [] {
      var bottom, top, below := FirstOfRest(low, a);
      var bottom', top', below' := FirstOfRest(low, b);
      TopInterval(bottom, bottom', top, below, below');
      RestIsForced(bottom, a[1..], b[1..]);
      assert a == [a[0]] + a[1..] && b == [b[0]] + b[1..];
    }
  }

  lemma FirstOfFrame(f: AckFrame) returns (bottom: nat, below: set<nat>)
    requires Valid(f)
    ensures bottom == f.largest - f.firstRange
    ensures ExpandRest(bottom, f.ranges) == Some(below) && Expand(f) == Interval(bottom, f.largest) + below
    ensures forall n | n in below :: n + 2 <= bottom
  {
    bottom := f.largest - f.firstRange;
    RestIsBelow(bottom, f.ranges);
    below := ExpandRest(bottom, f.ranges).value;
  }

  /** A set of numbers has one valid frame: the encoding is as compressed as it can be. */
  lemma OneFramePerSet(f: AckFrame, g: AckFrame)
    requires Valid(f) && Valid(g) && Expand(f) == Expand(g)
    ensures f.largest == g.largest && f.firstRange == g.firstRange && f.ranges == g.ranges
  {
    var bottom, below := FirstOfFrame(f);
    var bottom', below' := FirstOfFrame(g);
    assert f.largest in Expand(f) && g.largest in Expand(g);
    TopInterval(bottom, bottom', f.largest, below, below');
    RestIsForced(bottom, f.ranges, g.ranges);
  }

  // ---------------------------------------------------------------- compression

  datatype Block = Block(low: nat, high: nat)

  /** Blocks from the top down, with a missing number between neighbours, all below `ceiling`. */
  ghost predicate Descending(ceiling: nat, blocks: seq<Block>)
    decreases blocks
  {
    blocks == [] ||
    (blocks[0].low <= blocks[0].high && blocks[0].high + 2 <= ceiling && Descending(blocks[0].low, blocks[1..]))
  }

  ghost function Numbers(blocks: seq<Block>): set<nat> {
    if blocks == [] then {} else Interval(blocks[0].low, blocks[0].high) + Numbers(blocks[1..])
  }

  /** The gap and length fields that describe the blocks below `low`. */
  function Gaps(low: nat, blocks: seq<Block>): seq<AckRange>
    requires low <= U64_MAX && Descending(low, blocks)
    decreases blocks
  {
    if blocks == [] then [] else
      [AckRange(low - blocks[0].high - 2, blocks[0].high - blocks[0].low)] + Gaps(blocks[0].low, blocks[1..])
  }

  lemma {:induction false} GapsExpand(low: nat, blocks: seq<Block>)
    requires low <= U64_MAX && Descending(low, blocks)
    ensures RestValid(low, Gaps(low, blocks))
    ensures ExpandRest(low, Gaps(low, blocks)) == Some(Numbers(blocks))
    decreases blocks
  {
    if blocks != [] {
      GapsExpand(blocks[0].low, blocks[1..]);
      assert Gaps(low, blocks)[1..] == Gaps(blocks[0].low, blocks[1..]);
    }
  }

  lemma {:induction false} DescendingAppend(ceiling: nat, blocks: seq<Block>, b: Block)
    requires Descending(ceiling, blocks) && b.low <= b.high
    requires b.high + 2 <= if blocks == [] then ceiling else blocks[|blocks| - 1].low
    ensures Descending(ceiling, blocks + [b])
    ensures Numbers(blocks + [b]) == Numbers(blocks) + Interval(b.low, b.high)
    decreases blocks
  {
    if blocks == [] {
      assert ([b])[1..] == [];
    } else {
      assert (blocks + [b])[1..] == blocks[1..] + [b];
      DescendingAppend(blocks[0].low, blocks[1..], b);
    }
  }

  /** The lowest number of the last block. */
  ghost function Bottom(low: nat, blocks: seq<Block>): nat {
    if blocks == [] then low else blocks[|blocks| - 1].low
  }

  lemma {:induction false} GapsAppend(low: nat, blocks: seq<Block>, b: Block)
    requires low <= U64_MAX && Descending(low, blocks) && Descending(low, blocks + [b])
    ensures var last := Bottom(low, blocks);
            && b.high + 2 <= last <= U64_MAX && b.low <= b.high
            && Gaps(low, blocks + [b]) == Gaps(low, blocks) + [AckRange(last - b.high - 2, b.high - b.low)]
    decreases blocks
  {
    if blocks == [] {
      assert ([] + [b])[1..] == [];
    } else {
      var rest := blocks[1..];
      TailOf(blocks, b);
      GapsAppend(blocks[0].low, rest, b);
      GapsFront(low, blocks);
      GapsFront(low, blocks + [b]);
    }
  }

  lemma TailOf(blocks: seq<Block>, b: Block)
    requires blocks != []
    ensures (blocks + [b])[1..] == blocks[1..] + [b] && (blocks + [b])[0] == blocks[0]
    ensures Bottom(blocks[0].low, blocks[1..]) == blocks[|blocks| - 1].low
  {
  }

  lemma GapsFront(low: nat, blocks: seq<Block>)
    requires low <= U64_MAX && Descending(low, blocks) && blocks != []
    ensures Gaps(low, blocks)
         == [AckRange(low - blocks[0].high - 2, blocks[0].high - blocks[0].low)] + Gaps(blocks[0].low, blocks[1..])
  {
  }

  lemma LargestExists(s: set<nat>)
    requires s != {}
    ensures exists m :: m in s && forall n | n in s :: n <= m
  {
    var x :| x in s;
    if s - {x} == {} {
      assert s == {x};
    } else {
      LargestExists(s - {x});
      var m :| m in s - {x} && forall n | n in s - {x} :: n <= m;
      var top := if m < x then x else m;
      assert top in s;
      forall n | n in s
        ensures n <= top
      {
        assert n == x || n in s - {x};
      }
    }
  }

  /** Splits a set into its blocks by walking it from the largest number down. */
  method CollectBlocks(packets: set<nat>, ceiling: nat) returns (blocks: seq<Block>)
    requires packets != {} && forall n | n in packets :: n + 2 <= ceiling
    ensures blocks != [] && Descending(ceiling, blocks) && Numbers(blocks) == packets
  {
    LargestExists(packets);
    var high :| high in packets && forall n | n in packets :: n <= high;
    var low: nat, rest := high, packets - {high};
    blocks := [];
    assert Descending(ceiling, blocks) && Numbers(blocks) == {};
    hide Descending, Numbers;
    while rest != {}
      invariant Descending(ceiling, blocks)
      invariant low <= high && high + 2 <= if blocks == [] then ceiling else blocks[|blocks| - 1].low
      invariant forall n | n in rest :: n < low
      invariant forall n :: n in packets <==> n in Numbers(blocks) || low <= n <= high || n in rest
      decreases rest
    {
      LargestExists(rest);
      var packet :| packet in rest && forall n | n in rest :: n <= packet;
      rest := rest - {packet};
      if packet + 1 == low {
        low := packet;
      } else {
        DescendingAppend(ceiling, blocks, Block(low, high));
        blocks := blocks + [Block(low, high)];
        high, low := packet, packet;
      }
    }
    DescendingAppend(ceiling, blocks, Block(low, high));
    blocks := blocks + [Block(low, high)];
  }

  /** The gap and length fields, block by block. */
  method EncodeGaps(low: nat, blocks: seq<Block>) returns (ranges: seq<AckRange>)
    requires low <= U64_MAX && Descending(low, blocks)
    ensures ranges == Gaps(low, blocks)
  {
    ranges := [];
    var previous := low;
    assert blocks[..0] == [];
    for index := 0 to |blocks|
      invariant Descending(low, blocks[..index])
      invariant ranges == Gaps(low, blocks[..index])
      invariant previous == if index == 0 then low else blocks[index - 1].low
    {
      var b := blocks[index];
      DescendingPrefix(low, blocks, index + 1);
      assert blocks[..index + 1] == blocks[..index] + [b];
      GapsAppend(low, blocks[..index], b);
      ranges := ranges + [AckRange(previous - b.high - 2, b.high - b.low)];
      previous := b.low;
    }
    assert blocks[..|blocks|] == blocks;
  }

  method EncodeBlocks(blocks: seq<Block>, delay: u64) returns (f: AckFrame)
    requires blocks != [] && Descending(U64_MAX + 2, blocks)
    ensures Valid(f) && Expand(f) == Numbers(blocks) && f.delay == delay && f.ecn.None?
  {
    var ranges := EncodeGaps(blocks[0].low, blocks[1..]);
    GapsExpand(blocks[0].low, blocks[1..]);
    f := AckFrame(blocks[0].high, delay, blocks[0].high - blocks[0].low, ranges, None);
  }

  /** Every set is a list of blocks: put the largest number on top of the blocks of the rest. */
  lemma BlocksExist(packets: set<nat>, ceiling: nat) returns (blocks: seq<Block>)
    requires packets != {} && forall n | n in packets :: n + 2 <= ceiling
    ensures blocks != [] && Descending(ceiling, blocks) && Numbers(blocks) == packets
    decreases |packets|
  {
    hide Descending, Numbers;
    LargestExists(packets);
    var top :| top in packets && forall n | n in packets :: n <= top;
    var rest := packets - {top};
    if rest == {} {
      blocks := [Block(top, top)];
      OneBlock(top, ceiling);
      assert packets == {top};
    } else {
      var below := BlocksExist(rest, ceiling);
      blocks := OnTop(below, top, ceiling);
      assert packets == rest + {top};
    }
  }

  lemma OneBlock(top: nat, ceiling: nat)
    requires top + 2 <= ceiling
    ensures Descending(ceiling, [Block(top, top)]) && Numbers([Block(top, top)]) == {top}
  {
    assert [Block(top, top)][1..] == [] && Interval(top, top) == {top};
  }

  lemma OnTop(below: seq<Block>, top: nat, ceiling: nat) returns (blocks: seq<Block>)
    requires below != [] && Descending(ceiling, below) && top + 2 <= ceiling
             && forall n | n in Numbers(below) :: n < top
    ensures blocks != [] && Descending(ceiling, blocks) && Numbers(blocks) == Numbers(below) + {top}
  {
    var b, rest := below[0], below[1..];
    assert b.high in Interval(b.low, b.high) && b.high in Numbers(below);
    if b.high + 1 == top {
      blocks := [Block(b.low, top)] + rest;
      assert blocks[1..] == rest && Interval(b.low, top) == Interval(b.low, b.high) + {top};
    } else {
      blocks := [Block(top, top)] + below;
      assert blocks[1..] == below && Interval(top, top) == {top};
    }
  }

  /** Every non-empty set of received numbers has an ACK frame. */
  lemma FrameExists(packets: set<nat>, delay: u64) returns (f: AckFrame)
    requires packets != {} && forall n | n in packets :: n <= U64_MAX
    ensures Valid(f) && Expand(f) == packets && f.delay == delay && f.ecn.None?
  {
    var blocks := BlocksExist(packets, U64_MAX + 2);
    GapsExpand(blocks[0].low, blocks[1..]);
    f := AckFrame(
      blocks[0].high, delay, blocks[0].high - blocks[0].low, Gaps(blocks[0].low, blocks[1..]), None);
  }

  method CompressAck(packets: set<nat>, delay: u64) returns (f: AckFrame)
    requires forall n | n in packets :: n <= U64_MAX
    ensures packets == {} ==> f == AckFrame(0, 0, 0, [], None)
    ensures packets != {} ==> Valid(f) && Expand(f) == packets && f.delay == delay && f.ecn.None?
  {
    if packets == {} {
      return AckFrame(0, 0, 0, [], None);
    }
    var blocks := CollectBlocks(packets, U64_MAX + 2);
    f := EncodeBlocks(blocks, delay);
  }

  class ReceivedPacketTracker {
    var packets: set<nat>

    constructor ()
      ensures packets == {}
    {
      packets := {};
    }

    method Observe(n: nat) returns (isNew: bool)
      modifies this
      ensures isNew <==> n !in old(packets)
      ensures packets == old(packets) + {n}
    {
      isNew := n !in packets;
      packets := packets + {n};
    }

    method Clear()
      modifies this
      ensures packets == {}
    {
      packets := {};
    }

    /** The ACK frame for everything received: valid, and it expands back to exactly the received numbers. */
    method ToAckFrame(delay: u64) returns (f: AckFrame)
      requires forall n | n in packets :: n <= U64_MAX
      ensures packets == {} ==> f == AckFrame(0, 0, 0, [], None)
      ensures packets != {} ==> Valid(f) && Expand(f) == packets && f.delay == delay && f.ecn.None?
    {
      f := CompressAck(packets, delay);
    }
  }

  lemma {:induction false} DescendingPrefix(ceiling: nat, blocks: seq<Block>, k: nat)
    requires Descending(ceiling, blocks) && k <= |blocks|
    ensures Descending(ceiling, blocks[..k])
    decreases blocks
  {
    if 0 < k {
      DescendingPrefix(blocks[0].low, blocks[1..], k - 1);
      assert blocks[..k][1..] == blocks[1..][..k - 1];
    }
  }

  /** The inverse direction: compressing what a valid frame acknowledges gives that frame back. */
  method Recompress(f: AckFrame) returns (g: AckFrame)
    requires Valid(f)
    ensures g == f.(ecn := None)
  {
    var numbers := ExpandAckFrame(f);
    RestIsBelow(f.largest - f.firstRange, f.ranges);
    ValidMeansSomethingIsAcknowledged(f);
    g := CompressAck(numbers, f.delay);
    OneFramePerSet(f, g);
  }
}
