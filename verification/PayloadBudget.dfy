/** Which queued frames go into the next packet (packet_pipeline.hpp). */
module PayloadBudget {
  import opened Frames
  import opened FrameCodec

  /** How many frames from the front of a queue encode and fit the budget. */
  function Front(queue: seq<Frame>, budget: nat): (taken: nat)
    ensures taken <= |queue|
  {
    if queue == [] || !Encodable(queue[0]) || budget < |Encoding(queue[0])| then 0
    else 1 + Front(queue[1..], budget - |Encoding(queue[0])|)
  }

  /** Selection fails at a frame that cannot be printed. */
  predicate Sound(queue: seq<Frame>, budget: nat) {
    Front(queue, budget) == |queue| || Encodable(queue[Front(queue, budget)])
  }

  /** The front of the queue fits, and it is the longest that does. */
  lemma {:induction false} FrontIsLongest(queue: seq<Frame>, budget: nat)
    ensures var taken := Front(queue, budget);
            && AllEncodable(queue[..taken]) && |Payload(queue[..taken])| <= budget
            && (taken < |queue| && Encodable(queue[taken]) ==>
                  budget < |Payload(queue[..taken])| + |Encoding(queue[taken])|)
    decreases |queue|
  {
    hide Encoding, Encodable;
    if queue != [] && Encodable(queue[0]) && |Encoding(queue[0])| <= budget {
      var rest, left := queue[1..], budget - |Encoding(queue[0])|;
      FrontIsLongest(rest, left);
      var n := Front(rest, left);
      assert queue[..n + 1][1..] == rest[..n];
    }
  }

  /** One more frame than fits never fits: any front that encodes within the budget is at most as long. */
  lemma {:induction false} NothingLongerFits(queue: seq<Frame>, budget: nat, n: nat)
    requires n <= |queue| && AllEncodable(queue[..n]) && |Payload(queue[..n])| <= budget
    ensures n <= Front(queue, budget)
    decreases |queue|
  {
    hide Encoding, Encodable;
    if n != 0 {
      assert queue[..n][0] == queue[0] && queue[..n][1..] == queue[1..][..n - 1];
      NothingLongerFits(queue[1..], budget - |Encoding(queue[0])|, n - 1);
    }
  }

  /** Selection fails exactly if the frames before the first one that cannot be printed all fit. */
  lemma SoundExactly(queue: seq<Frame>, budget: nat)
    ensures !Sound(queue, budget) <==>
            exists k :: 0 <= k < |queue| && !Encodable(queue[k])
                        && AllEncodable(queue[..k]) && |Payload(queue[..k])| <= budget
  {
    hide Encoding, Encodable, Front;
    FrontIsLongest(queue, budget);
    var taken := Front(queue, budget);
    assert forall j | 0 <= j < taken :: queue[..taken][j] == queue[j];
    forall k | 0 <= k < |queue| && !Encodable(queue[k]) && AllEncodable(queue[..k]) && |Payload(queue[..k])| <= budget
      ensures taken == k
    {
      NothingLongerFits(queue, budget, k);
    }
  }

  method SelectFrames(queue: seq<Frame>, budget: nat) returns (taken: nat, ok: bool)
    ensures taken == Front(queue, budget) && ok == Sound(queue, budget)
  {
    hide Encoding, Encodable;
    var used := 0;
    assert queue[0..] == queue;
    for index := 0 to |queue|
      invariant used <= budget && Front(queue, budget) == index + Front(queue[index..], budget - used)
    {
      assert queue[index..][0] == queue[index] && queue[index..][1..] == queue[index + 1..];
      if !Encodable(queue[index]) {
        return index, false;
      }
      var size := |Encoding(queue[index])|;
      if size > budget - used {
        return index, true;
      }
      used := used + size;
    }
    return |queue|, true;
  }
}
