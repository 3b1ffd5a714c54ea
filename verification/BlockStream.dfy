/** The block stream: new-block events in, every height since the start out, gaps filled by query. */
module BlockStream {
  import opened GoTypes

  datatype Block = Block(height: int, data: Bytes)

  /** What a read of the event socket yields: a new-block event, whose block may be nil, or another event. */
  datatype Event = NewBlock(block: Option<Block>) | Other

  /** The block in hand after a run of events: that of the last new-block event. */
  function Held(events: seq<Event>): Option<Block> {
    if events == [] then None
    else
      match events[|events| - 1]
      case NewBlock(b) => b
      case Other => Held(events[..|events| - 1])
  }

  /** The blocks the loop gets to look at: after each event the one in hand. */
  function Seen(events: seq<Event>): seq<Block> {
    if events == [] then []
    else Seen(events[..|events| - 1]) + if Held(events).Some? then [Held(events).value] else []
  }

  lemma SeenSnoc(events: seq<Event>, n: nat)
    requires n < |events|
    ensures var was, now, b := events[..n], events[..n + 1],
                               if events[n].NewBlock? then events[n].block else Held(events[..n]);
      Held(now) == b && Seen(now) == if b.Some? then Seen(was) + [b.value] else Seen(was)
  {
    assert events[..n + 1][..n] == events[..n];
  }

  /** The queried blocks of the heights from `from` to before `upto`. */
  function Queried(getBlock: int -> Block, from: int, upto: int): seq<Block>
    requires from <= upto
  {
    seq(upto - from, i requires 0 <= i < upto - from => getBlock(from + i))
  }

  /** What one look at a block sends: nothing if it is the latest, else the block itself, and before it,
      over a gap, the queried block of every missed height and of its own. */
  function SendBlocks(getBlock: int -> Block, latest: int, b: Block): seq<Block> {
    if b.height == latest then []
    else if latest + 1 < b.height then Queried(getBlock, latest + 1, b.height + 1) + [b]
    else [b]
  }

  function SendAllBlocks(getBlock: int -> Block, latest: int, seen: seq<Block>): seq<Block> {
    if seen == [] then []
    else
      var before := seen[..|seen| - 1];
      SendAllBlocks(getBlock, latest, before) + SendBlocks(getBlock, LatestOf(latest, before), seen[|seen| - 1])
  }

  function LatestOf(latest: int, seen: seq<Block>): int {
    if seen == [] then latest else seen[|seen| - 1].height
  }

  class Manager {
    var latestHeight: int
    var blocks: seq<Block>

    /** Streams until the events end. `status` is the height the node reports at the start, if it answers. */
    method BlockStream(status: Option<int>, getBlock: int -> Block, events: seq<Event>)
      modifies this
      ensures var start := if status.Some? then status.value else old(latestHeight);
        && blocks == old(blocks) + SendAllBlocks(getBlock, start, Seen(events))
        && latestHeight == LatestOf(start, Seen(events))
    {
      if status.Some? {
        latestHeight := status.value;
      }
      var block: Option<Block> := None;
      ghost var start := latestHeight;
      for n := 0 to |events|
        invariant block == Held(events[..n])
        invariant latestHeight == LatestOf(start, Seen(events[..n]))
        invariant Sent(getBlock, old(blocks), start, Seen(events[..n]), blocks)
      {
        hide SendBlocks, SendAllBlocks, Sent, Seen, Held;
        ghost var seen := Seen(events[..n]);
        SeenSnoc(events, n);
        if events[n].NewBlock? {
          block := events[n].block;
        }
        if block.None? {
          continue;
        }
        SentSnoc(getBlock, old(blocks), start, seen, blocks, block.value);
        Deliver(block.value, getBlock);
      }
      assert events[..|events|] == events;
    }

    /** Sends a block that is not the latest, with the blocks missed before it. */
    method Deliver(block: Block, getBlock: int -> Block)
      modifies this
      ensures blocks == old(blocks) + SendBlocks(getBlock, old(latestHeight), block)
      ensures latestHeight == block.height
    {
      if latestHeight == block.height {
        return;
      } else if latestHeight > block.height {
      } else if latestHeight + 1 < block.height {
        for h := latestHeight + 1 to block.height + 1
          invariant latestHeight == old(latestHeight)
          invariant blocks == old(blocks) + Queried(getBlock, latestHeight + 1, h)
        {
          blocks := blocks + [getBlock(h)];
        }
      }
      blocks := blocks + [block];
      latestHeight := block.height;
    }
  }

  /** `after` is what was sent before, then what the blocks seen since `start` make the stream send. */
  ghost predicate Sent(getBlock: int -> Block, before: seq<Block>, start: int, seen: seq<Block>, after: seq<Block>) {
    after == before + SendAllBlocks(getBlock, start, seen)
  }

  lemma SentSnoc(
    getBlock: int -> Block, before: seq<Block>, start: int, seen: seq<Block>, after: seq<Block>, b: Block)
    requires Sent(getBlock, before, start, seen, after)
    ensures Sent(getBlock, before, start, seen + [b], after + SendBlocks(getBlock, LatestOf(start, seen), b))
  {
    hide SendBlocks, LatestOf;
    assert (seen + [b])[..|seen|] == seen;
  }

  // ---------- Which blocks are sent ----------

  /** The block in hand is that of the last new-block event, none before the first. */
  lemma {:induction false} HeldIsLast(events: seq<Event>, n: nat)
    requires n <= |events| && forall i :: n <= i < |events| ==> events[i] == Other
    ensures n > 0 && events[n - 1].NewBlock? ==> Held(events) == events[n - 1].block
    ensures n == 0 ==> Held(events) == None
  {
    if |events| > n {
      HeldIsLast(events[..|events| - 1], n);
    }
  }

  /** The block in hand after each event. */
  function HeldAfter(events: seq<Event>): seq<Option<Block>> {
    seq(|events|, n requires 0 <= n < |events| => Held(events[..n + 1]))
  }

  /** `seen` are the blocks in `held`, at the rising places `at`, which are all that hold one. */
  ghost predicate Places(held: seq<Option<Block>>, at: seq<nat>, seen: seq<Block>) {
    && |at| == |seen|
    && (forall j, k :: 0 <= j < k < |at| ==> at[j] < at[k])
    && (forall n :: 0 <= n < |held| ==> (n in at <==> held[n].Some?))
    && (forall j :: 0 <= j < |at| ==> at[j] < |held| && held[at[j]] == Some(seen[j]))
  }

  lemma PlacesSnoc(held: seq<Option<Block>>, at: seq<nat>, seen: seq<Block>, h: Option<Block>)
    requires Places(held, at, seen)
    ensures if h.Some? then Places(held + [h], at + [|held|], seen + [h.value]) else Places(held + [h], at, seen)
  {
  }

  /** The blocks seen are those in hand after the events that leave one there, once each and in order. */
  lemma {:induction false} SeenExactly(events: seq<Event>) returns (at: seq<nat>)
    ensures Places(HeldAfter(events), at, Seen(events))
  {
    at := [];
    if events != [] {
      var last := |events| - 1;
      at := SeenExactly(events[..last]);
      SeenSnoc(events, last);
      assert events[..last + 1] == events;
      assert HeldAfter(events) == HeldAfter(events[..last]) + [Held(events)] by {
        forall n | 0 <= n < last ensures HeldAfter(events[..last])[n] == HeldAfter(events)[n] {
          assert events[..last][..n + 1] == events[..n + 1];
        }
      }
      hide Held, Seen, HeldAfter, Places;
      PlacesSnoc(HeldAfter(events[..last]), at, Seen(events[..last]), Held(events));
      if Held(events).Some? {
        assert |HeldAfter(events[..last])| == last by { HeldAfterLength(events[..last]); }
        at := at + [last];
      }
    }
  }

  lemma HeldAfterLength(events: seq<Event>)
    ensures |HeldAfter(events)| == |events|
  {
  }

  /** One look at a block sends nothing for the latest height. Else it sends the block last, and before it,
      over a gap, what is queried for each height behind the latest up to its own. */
  lemma SendsExactly(getBlock: int -> Block, latest: int, b: Block)
    ensures var sent := SendBlocks(getBlock, latest, b);
      if b.height == latest then sent == []
      else
        && |sent| == 1 + (if latest + 1 < b.height then b.height - latest else 0)
        && sent[|sent| - 1] == b
        && forall i :: 0 <= i < |sent| - 1 ==> sent[i] == getBlock(latest + 1 + i)
  {
  }

  /** Where over a whole run block `i` comes from: a block seen, or the query of a height it leaves behind it
      or of its own over a gap. */
  lemma {:induction false} SentIsSeenOrQueried(getBlock: int -> Block, start: int, seen: seq<Block>, i: nat)
    returns (j: nat, h: int)
    requires i < |SendAllBlocks(getBlock, start, seen)|
    ensures j < |seen| && seen[j].height != LatestOf(start, seen[..j])
    ensures var b, latest := SendAllBlocks(getBlock, start, seen)[i], LatestOf(start, seen[..j]);
      b == seen[j] || (latest + 1 < seen[j].height && latest < h <= seen[j].height && b == getBlock(h))
  {
    var last := |seen| - 1;
    var before, latest := SendAllBlocks(getBlock, start, seen[..last]), LatestOf(start, seen[..last]);
    SendsExactly(getBlock, latest, seen[last]);
    var sent := SendBlocks(getBlock, latest, seen[last]);
    hide SendBlocks, LatestOf;
    assert SendAllBlocks(getBlock, start, seen) == before + sent;
    hide SendAllBlocks;
    if i < |before| {
      j, h := SentIsSeenOrQueried(getBlock, start, seen[..last], i);
      assert seen[..last][..j] == seen[..j];
    } else {
      j, h := last, latest + 1 + i - |before|;
    }
  }

  /** Every block seen at another height than the latest is sent. */
  lemma {:induction false} SeenIsSent(getBlock: int -> Block, start: int, seen: seq<Block>, j: nat)
    requires j < |seen| && seen[j].height != LatestOf(start, seen[..j])
    ensures seen[j] in SendAllBlocks(getBlock, start, seen)
  {
    var last := |seen| - 1;
    if j < last {
      assert seen[..last][..j] == seen[..j];
      hide SendBlocks, LatestOf;
      SeenIsSent(getBlock, start, seen[..last], j);
    } else {
      SendsExactly(getBlock, LatestOf(start, seen[..last]), seen[last]);
      hide SendBlocks, LatestOf;
    }
  }

  // ---------- The heights of what is sent ----------

  function HeightsOf(blocks: seq<Block>): seq<int> {
    seq(|blocks|, i requires 0 <= i < |blocks| => blocks[i].height)
  }

  function Range(from: int, upto: int): seq<int>
    requires from <= upto
  {
    seq(upto - from, i requires 0 <= i < upto - from => from + i)
  }

  function Send(latest: int, h: int): seq<int> {
    if h == latest then []
    else if latest + 1 < h then Range(latest + 1, h + 1) + [h]
    else [h]
  }

  function SendAll(latest: int, heights: seq<int>): seq<int>
    decreases heights
  {
    if heights == [] then [] else Send(latest, heights[0]) + SendAll(heights[0], heights[1..])
  }

  function Latest(latest: int, heights: seq<int>): int {
    if heights == [] then latest else heights[|heights| - 1]
  }

  /** Queries answer with the block of the height asked for. */
  ghost predicate AnswersHeights(getBlock: int -> Block) {
    forall h :: getBlock(h).height == h
  }

  /** The heights of the blocks sent depend only on the heights of the blocks seen. */
  lemma {:induction false} HeightsSent(getBlock: int -> Block, latest: int, seen: seq<Block>)
    requires AnswersHeights(getBlock)
    ensures HeightsOf(SendAllBlocks(getBlock, latest, seen)) == SendAll(latest, HeightsOf(seen))
    ensures LatestOf(latest, seen) == Latest(latest, HeightsOf(seen))
  {
    if seen != [] {
      var before, b := seen[..|seen| - 1], seen[|seen| - 1];
      HeightsSent(getBlock, latest, before);
      SendHeights(getBlock, LatestOf(latest, before), b);
      HeightsConcat(SendAllBlocks(getBlock, latest, before), SendBlocks(getBlock, LatestOf(latest, before), b));
      assert HeightsOf(seen) == HeightsOf(before) + [b.height];
      SendAllSnoc(latest, HeightsOf(before), b.height);
      hide Send, SendAll, SendBlocks, HeightsOf;
    }
  }

  lemma SendHeights(getBlock: int -> Block, latest: int, b: Block)
    requires AnswersHeights(getBlock)
    ensures HeightsOf(SendBlocks(getBlock, latest, b)) == Send(latest, b.height)
  {
  }

  lemma {:induction false} SendAllSnoc(latest: int, heights: seq<int>, h: int)
    ensures SendAll(latest, heights + [h]) == SendAll(latest, heights) + Send(Latest(latest, heights), h)
    decreases heights
  {
    hide Send;
    if heights == [] {
      assert [h][1..] == [];
    } else {
      var first, rest, sent := heights[0], heights[1..], Send(Latest(latest, heights), h);
      SendAllSnoc(first, rest, h);
      assert SendAll(latest, heights) == Send(latest, first) + SendAll(first, rest);
      assert Latest(first, rest) == Latest(latest, heights);
      hide Latest;
      assert (heights + [h])[0] == first && (heights + [h])[1..] == rest + [h];
      assert SendAll(latest, heights + [h]) == Send(latest, first) + SendAll(first, rest + [h]);
      hide SendAll;
      assert Send(latest, first) + (SendAll(first, rest) + sent) == Send(latest, first) + SendAll(first, rest) + sent;
    }
  }

  lemma HeightsConcat(a: seq<Block>, b: seq<Block>)
    ensures HeightsOf(a + b) == HeightsOf(a) + HeightsOf(b)
  {
  }

  // ---------- What the stream delivers ----------

  /** No height seen is below the latest one before it. */
  predicate Rising(latest: int, heights: seq<int>)
    decreases heights
  {
    heights == [] || (latest <= heights[0] && Rising(heights[0], heights[1..]))
  }

  /** `h` is the far end of a gap of two or more. */
  predicate ClosesGap(latest: int, heights: seq<int>, h: int)
    decreases heights
  {
    heights != [] && ((heights[0] == h && latest + 1 < h) || ClosesGap(heights[0], heights[1..], h))
  }

  /** Rising from a start is what it says: no entry is below the start or below an earlier entry. */
  lemma {:induction false} RisingIsSorted(latest: int, s: seq<int>)
    ensures Rising(latest, s) <==>
            (forall i :: 0 <= i < |s| ==> latest <= s[i]) && (forall i, j :: 0 <= i < j < |s| ==> s[i] <= s[j])
    decreases s
  {
    if s != [] {
      RisingIsSorted(s[0], s[1..]);
      assert forall i :: 0 < i < |s| ==> s[i] == s[1..][i - 1];
      if Rising(latest, s) {
        forall i, j | 0 <= i < j < |s| ensures s[i] <= s[j] {
          assert s[j] == s[1..][j - 1];
        }
      }
    }
  }

  lemma {:induction false} RisingConcat(latest: int, s: seq<int>, t: seq<int>)
    ensures Rising(latest, s + t) <==> Rising(latest, s) && Rising(Latest(latest, s), t)
    ensures Latest(latest, s + t) == Latest(Latest(latest, s), t)
    decreases s
  {
    if s == [] {
      assert s + t == t;
    } else {
      assert (s + t)[1..] == s[1..] + t;
      RisingConcat(s[0], s[1..], t);
    }
  }

  lemma SendRises(latest: int, h: int)
    ensures Rising(latest, Send(latest, h)) <==> latest <= h
    ensures Latest(latest, Send(latest, h)) == h
  {
    if latest + 1 < h {
      RisingIsSorted(latest, Send(latest, h));
    }
  }

  /** The heights sent never fall, from the starting height on, exactly when no event falls below the
      latest height; and the last one sent is the latest height. */
  lemma {:induction false} RisesExactly(latest: int, heights: seq<int>)
    ensures Rising(latest, SendAll(latest, heights)) <==> Rising(latest, heights)
    ensures Latest(latest, SendAll(latest, heights)) == Latest(latest, heights)
    decreases heights
  {
    if heights != [] {
      hide Send;
      SendRises(latest, heights[0]);
      RisesExactly(heights[0], heights[1..]);
      RisingConcat(latest, Send(latest, heights[0]), SendAll(heights[0], heights[1..]));
    }
  }

  /** Every height after the start up to the latest is sent once, or twice exactly when it closed a gap
      of two or more; no other height is sent. */
  lemma {:induction false} EachHeightOnce(latest: int, heights: seq<int>, h: int)
    requires Rising(latest, heights)
    ensures multiset(SendAll(latest, heights))[h] ==
            if latest < h <= Latest(latest, heights)
            then (if ClosesGap(latest, heights, h) then 2 else 1) else 0
    decreases heights
  {
    if heights != [] {
      var first, rest := heights[0], heights[1..];
      EachHeightOnce(first, rest, h);
      SendOnce(latest, first, h);
      NeverBelow(first, rest);
      assert Latest(latest, heights) == Latest(first, rest);
      hide Send;
      if h <= first {
        NoGapBehind(first, rest, h);
      }
    }
  }

  lemma {:induction false} NeverBelow(latest: int, heights: seq<int>)
    requires Rising(latest, heights)
    ensures latest <= Latest(latest, heights)
    decreases heights
  {
    if heights != [] {
      NeverBelow(heights[0], heights[1..]);
    }
  }

  lemma {:induction false} NoGapBehind(latest: int, heights: seq<int>, h: int)
    requires Rising(latest, heights) && h <= latest
    ensures !ClosesGap(latest, heights, h)
    decreases heights
  {
    if heights != [] {
      NoGapBehind(heights[0], heights[1..], h);
    }
  }

  lemma SendOnce(latest: int, first: int, h: int)
    requires latest <= first
    ensures multiset(Send(latest, first))[h] ==
            if latest < h <= first then (if first == h && latest + 1 < h then 2 else 1) else 0
  {
    if latest + 1 < first {
      RangeOnce(latest + 1, first + 1, h);
    }
  }

  lemma {:induction false} RangeOnce(from: int, upto: int, h: int)
    requires from <= upto
    ensures multiset(Range(from, upto))[h] == if from <= h < upto then 1 else 0
    decreases upto - from
  {
    if from < upto {
      RangeOnce(from, upto - 1, h);
      assert Range(from, upto) == Range(from, upto - 1) + [upto - 1];
    }
  }
}
