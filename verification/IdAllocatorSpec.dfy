/** What one iteration of the batching allocator does to its cached block and to the requests it
    took, and what follows for whole runs. The imperative allocator is proved against this. */
module IdAllocatorSpec {
  import opened Wrappers
  import opened IdRanges

  const COUNT_PER_RPC: uint32 := 200000
  const MAX_CONCURRENT_REQUESTS := 10000

  /** A batch is one received request and a full channel. */
  const MAX_BATCH := MAX_CONCURRENT_REQUESTS + 1

  /** The largest request size for which no batch adds up to 2^32. */
  const MAX_SAFE_COUNT := 429453

  /** The cached block: the next ID to hand out and the end of the block. */
  datatype Cache = Cache(idStart: int, idEnd: int)

  /** What comes back when the root coordinator is asked for IDs: the call fails; or the response's status says that no
      IDs could be allocated, with the ID 0 and a count all the same; or a block is granted. */
  datatype Answer = Refused | Declined(count: uint32) | Grant(id: int, count: uint32)

  datatype Reason = SyncFailed | Unexpected | Closing

  /** What a request is notified with. */
  datatype Outcome = Served(id: int) | Failed(reason: Reason)

  /** What the allocator takes for a block; it does not look at the response's status. */
  function BlockOf(answer: Answer): (block: Range)
    requires !answer.Refused?
    ensures answer.Grant? ==> forall id :: block.Has(id) <==> 0 <= id - answer.id < answer.count
    ensures answer.Declined? ==> forall id :: block.Has(id) <==> 0 <= id < answer.count
  {
    var id := if answer.Grant? then answer.id else 0;
    Range(id, id + answer.count)
  }

  /** The IDs left in the cache as the allocator computes them. */
  function Available(c: Cache): uint32 {
    WrapU32(c.idEnd - c.idStart)
  }

  /** How many requests the allocator picks from the front of its queue, when `need` is already
      spoken for. The running need is a uint32 and wraps around. */
  function PickLength(counts: seq<uint32>, total: uint32, need: uint32): (n: nat)
    ensures n <= |counts|
  {
    if counts == [] || WrapU32(need + counts[0]) > total then 0
    else 1 + PickLength(counts[1..], total, WrapU32(need + counts[0]))
  }

  /** The size the allocator asks the root coordinator for: what the requests add up to, but never less than 200000. */
  function AskedFor(counts: seq<uint32>): (asked: uint32)
    ensures asked >= 200000
    ensures 200000 <= Sum(counts) < 0x1_0000_0000 ==> asked == Sum(counts)
    ensures Sum(counts) <= 200000 ==> asked == 200000
  {
    var need := WrapU32(Sum(counts));
    if need < COUNT_PER_RPC then COUNT_PER_RPC else need
  }

  function ServedAs(ranges: seq<Range>): (outs: seq<Outcome>)
    ensures |outs| == |ranges|
    ensures forall i :: 0 <= i < |outs| ==> outs[i] == Served(ranges[i].start)
  {
    seq(|ranges|, i requires 0 <= i < |ranges| => Served(ranges[i].start))
  }

  lemma LayoutNext(start: int, counts: seq<uint32>, i: nat)
    requires i < |counts|
    ensures ServedAs(Layout(start, counts[..i+1]))
            == ServedAs(Layout(start, counts[..i])) + [Served(start + Sum(counts[..i]))]
  {
    var here := start + Sum(counts[..i]);
    assert counts[..i+1] == counts[..i] + [counts[i]];
    LayoutAppend(start, counts[..i], [counts[i]]);
    assert Layout(here, [counts[i]]) == [Range(here, here + counts[i])];
  }

  function AllFailed(n: nat, reason: Reason): (outs: seq<Outcome>)
    ensures |outs| == n
    ensures forall i :: 0 <= i < n ==> outs[i] == Failed(reason)
  {
    seq(n, _ => Failed(reason))
  }

  /** What one pick and finish does: the cache it leaves and the ranges it hands out, in order. */
  datatype Pass = Pass(cache: Cache, ranges: seq<Range>)

  function ServePass(c: Cache, counts: seq<uint32>): (r: Pass)
    ensures |r.ranges| <= |counts|
  {
    var k := PickLength(counts, Available(c), 0);
    Pass(Cache(c.idStart + Sum(counts[..k]), c.idEnd), Layout(c.idStart, counts[..k]))
  }

  datatype Iteration = Iteration(cache: Cache, ranges: seq<Range>, outcomes: seq<Outcome>, synced: bool)

  /** A whole iteration over the requests that were taken off the channel. The answer is what the
      root coordinator says if it is asked, which happens if requests are left after a first pass. */
  function BatchStep(c: Cache, counts: seq<uint32>, answer: Answer): (r: Iteration)
    ensures |r.outcomes| == |counts|
    ensures |r.ranges| <= |counts|
  {
    var first := ServePass(c, counts);
    var rest := counts[|first.ranges|..];
    var synced := rest != [] && !answer.Refused?;
    var second := if synced then ServePass(SyncStep(c, answer), rest) else Pass(first.cache, []);
    var ranges := first.ranges + second.ranges;
    var reason := if answer.Refused? then SyncFailed else Unexpected;
    Iteration(second.cache, ranges, ServedAs(ranges) + AllFailed(|counts| - |ranges|, reason), synced)
  }

  /** An iteration in which no block is adopted. */
  lemma BatchStepUnsynced(c: Cache, counts: seq<uint32>, answer: Answer)
    requires answer.Refused? || |ServePass(c, counts).ranges| == |counts|
    ensures var pass := ServePass(c, counts);
            var reason := if answer.Refused? then SyncFailed else Unexpected;
            BatchStep(c, counts, answer)
            == Iteration(pass.cache, pass.ranges,
                         ServedAs(pass.ranges) + AllFailed(|counts| - |pass.ranges|, reason), false)
  {
    var pass := ServePass(c, counts);
    assert pass.ranges + [] == pass.ranges;
  }

  /** An iteration in which a block is adopted. */
  lemma BatchStepSynced(c: Cache, counts: seq<uint32>, answer: Answer)
    requires !answer.Refused? && |ServePass(c, counts).ranges| < |counts|
    ensures var first := ServePass(c, counts).ranges;
            var second := ServePass(SyncStep(c, answer), counts[|first|..]);
            && |first + second.ranges| <= |counts|
            && BatchStep(c, counts, answer)
               == Iteration(second.cache, first + second.ranges,
                            ServedAs(first) + ServedAs(second.ranges)
                            + AllFailed(|counts| - |first + second.ranges|, Unexpected), true)
  {
    var first := ServePass(c, counts).ranges;
    var second := ServePass(SyncStep(c, answer), counts[|first|..]).ranges;
    assert ServedAs(first + second) == ServedAs(first) + ServedAs(second);
  }

  /** A forced sync, and a tick that finds no request waiting. */
  function SyncStep(c: Cache, answer: Answer): Cache {
    if answer.Refused? then c else Cache(BlockOf(answer).start, BlockOf(answer).end)
  }

  // ----- One pick -----

  ghost predicate IsBatch(counts: seq<uint32>, largest: uint32) {
    |counts| <= MAX_BATCH && forall i :: 0 <= i < |counts| ==> counts[i] <= largest
  }

  /** Block and request sizes with which the uint32 arithmetic does no harm. */
  predicate Harmless(total: int, largest: uint32) {
    total + largest < TWO_TO_32 || largest <= MAX_SAFE_COUNT
  }

  /** No running need that picking looks at wraps around. */
  ghost predicate NoWrap(counts: seq<uint32>, total: uint32, need: uint32) {
    counts != [] ==>
      && need + counts[0] < TWO_TO_32
      && (need + counts[0] <= total ==> NoWrap(counts[1..], total, need + counts[0]))
  }

  /** If none does, the picked requests fit and one more would not. */
  lemma {:induction false} PickWithin(counts: seq<uint32>, total: uint32, need: uint32)
    requires need <= total && NoWrap(counts, total, need)
    ensures var k := PickLength(counts, total, need);
            && need + Sum(counts[..k]) <= total
            && (k < |counts| ==> total < need + Sum(counts[..k+1]))
  {
    if counts != [] {
      if need + counts[0] <= total {
        var rest := counts[1..];
        PickWithin(rest, total, need + counts[0]);
        var k := PickLength(rest, total, need + counts[0]);
        PickCons(counts[0], rest, total, need);
        assert counts == [counts[0]] + rest;
        SumTakeCons(counts, k);
        if k < |rest| {
          SumTakeCons(counts, k + 1);
        }
      } else {
        SumTakeCons(counts, 0);
      }
    }
  }

  lemma SumTakeCons(counts: seq<uint32>, k: nat)
    requires k < |counts|
    ensures Sum(counts[..k+1]) == counts[0] + Sum(counts[1..][..k])
  {
    assert counts[..k+1][1..] == counts[1..][..k];
  }

  lemma {:induction false} SmallNeverWraps(counts: seq<uint32>, total: uint32, need: uint32, largest: uint32)
    requires need <= total && total + largest < TWO_TO_32
    requires forall i :: 0 <= i < |counts| ==> counts[i] <= largest
    ensures NoWrap(counts, total, need)
  {
    if counts != [] && need + counts[0] <= total {
      SmallNeverWraps(counts[1..], total, need + counts[0], largest);
    }
  }

  lemma {:induction false} SumNeverWraps(counts: seq<uint32>, total: uint32, need: uint32)
    requires need + Sum(counts) < TWO_TO_32
    ensures NoWrap(counts, total, need)
  {
    if counts != [] && need + counts[0] <= total {
      SumNeverWraps(counts[1..], total, need + counts[0]);
    }
  }

  lemma HarmlessNoWrap(counts: seq<uint32>, total: uint32, largest: uint32)
    requires IsBatch(counts, largest) && Harmless(total, largest)
    ensures NoWrap(counts, total, 0)
  {
    if largest <= MAX_SAFE_COUNT {
      SumBound(counts, MAX_SAFE_COUNT);
      SumNeverWraps(counts, total, 0);
    } else {
      SmallNeverWraps(counts, total, 0, largest);
    }
  }

  /** What is left of the block is a 32-bit number, as the allocator takes it to be. */
  predicate FitsWord(c: Cache) {
    0 <= c.idEnd - c.idStart < TWO_TO_32
  }

  /** A pass takes its picked sizes from the front of the block, in order, and stops at the first one that does not
      fit any more. */
  lemma PassTakes(c: Cache, counts: seq<uint32>)
    requires FitsWord(c) && NoWrap(counts, Available(c), 0)
    ensures var pass := ServePass(c, counts);
            var k := |pass.ranges|;
            var next := c.idStart + Sum(counts[..k]);
            && pass == Pass(Cache(next, c.idEnd), Layout(c.idStart, counts[..k]))
            && next <= c.idEnd
            && (k < |counts| ==> c.idEnd < next + counts[k])
  {
    var k := PickLength(counts, Available(c), 0);
    assert Available(c) == c.idEnd - c.idStart;
    PickWithin(counts, Available(c), 0);
    if k < |counts| {
      SumTakeNext(counts, k);
    }
  }

  /** Exactly when picking never overruns the block, over all batches that a channel can hold: the block's size plus
      the largest request stays below 2^32, or no batch of such requests adds up to 2^32. */
  lemma PickSafeIff(total: uint32, largest: uint32)
    ensures (forall counts: seq<uint32> {:trigger PickLength(counts, total, 0)} ::
              IsBatch(counts, largest) ==> Sum(counts[..PickLength(counts, total, 0)]) <= total)
            <==> Harmless(total, largest)
  {
    if Harmless(total, largest) {
      forall counts: seq<uint32> | IsBatch(counts, largest)
        ensures Sum(counts[..PickLength(counts, total, 0)]) <= total
      {
        HarmlessNoWrap(counts, total, largest);
        PickWithin(counts, total, 0);
      }
    } else {
      var bad := WrappingBatch(largest);
      WrappingBatchIsPicked(total, largest);
      assert bad[..|bad|] == bad;
    }
  }

  /** A batch whose sizes add up to 2^32, so that the last request wraps the running need to 0. */
  function WrappingBatch(largest: uint32): (counts: seq<uint32>)
    requires largest > MAX_SAFE_COUNT
  {
    var before := TWO_TO_32 - largest;
    Repeat(before / largest, largest) + [before % largest] + [largest]
  }

  function Repeat(n: nat, count: uint32): (s: seq<uint32>)
    ensures |s| == n
    ensures forall i :: 0 <= i < n ==> s[i] == count
  {
    seq(n, _ => count)
  }

  lemma {:induction false} SumRepeat(n: nat, count: uint32)
    ensures Sum(Repeat(n, count)) == n * count
  {
    if n > 0 {
      assert Repeat(n, count)[1..] == Repeat(n - 1, count);
      SumRepeat(n - 1, count);
    }
  }

  lemma WrappingBatchLength(largest: uint32)
    requires largest > MAX_SAFE_COUNT
    ensures var before := TWO_TO_32 - largest;
            && before == (before / largest) * largest + before % largest
            && before / largest + 2 <= MAX_BATCH
  {
    var before := TWO_TO_32 - largest;
    var q := before / largest;
    SmallerFactor(q, MAX_SAFE_COUNT + 1, largest, before);
  }

  lemma SmallerFactor(q: nat, d: nat, e: nat, n: nat)
    requires d <= e && q * e <= n
    ensures q * d <= n
  {
    assert q * e == q * d + q * (e - d);
  }

  lemma WrappingBatchSums(largest: uint32)
    requires largest > MAX_SAFE_COUNT
    ensures var counts := WrappingBatch(largest);
            && |counts| >= 2 && IsBatch(counts, largest)
            && counts[|counts|-1] == largest
            && Sum(counts[..|counts|-1]) == TWO_TO_32 - largest
            && Sum(counts) == TWO_TO_32
  {
    var before := TWO_TO_32 - largest;
    WrappingBatchLength(largest);
    SumWrapping(before / largest, largest, before % largest);
  }

  lemma SumWrapping(q: nat, largest: uint32, r: uint32)
    ensures var counts := Repeat(q, largest) + [r] + [largest];
            && counts[..|counts|-1] == Repeat(q, largest) + [r]
            && Sum(counts[..|counts|-1]) == q * largest + r
            && Sum(counts) == q * largest + r + largest
  {
    var front := Repeat(q, largest) + [r];
    SumRepeat(q, largest);
    SumAppend(Repeat(q, largest), [r]);
    SumAppend(front, [largest]);
    assert Sum([r]) == r + Sum([]) && Sum([largest]) == largest + Sum([]);
    assert (front + [largest])[..|front|] == front;
  }

  lemma WrappingBatchIsPicked(total: uint32, largest: uint32)
    requires !Harmless(total, largest)
    ensures var counts := WrappingBatch(largest);
            IsBatch(counts, largest) && PickLength(counts, total, 0) == |counts| && Sum(counts) == TWO_TO_32
  {
    var counts := WrappingBatch(largest);
    WrappingBatchSums(largest);
    var front := counts[..|counts|-1];
    assert counts == front + ([largest] + []);
    PickFrontThen(front, largest, [], total);
  }

  /** A front that fits is picked, and picking goes on behind it. */
  lemma {:induction false} PickFront(front: seq<uint32>, rest: seq<uint32>, total: uint32, need: uint32)
    requires need + Sum(front) <= total
    ensures PickLength(front + rest, total, need) == |front| + PickLength(rest, total, need + Sum(front))
  {
    if front == [] {
      assert front + rest == rest;
    } else {
      assert front + rest == [front[0]] + (front[1..] + rest);
      PickCons(front[0], front[1..] + rest, total, need);
      PickFront(front[1..], rest, total, need + front[0]);
    }
  }

  lemma PickCons(count: uint32, more: seq<uint32>, total: uint32, need: uint32)
    requires need + count <= total
    ensures PickLength([count] + more, total, need) == 1 + PickLength(more, total, need + count)
  {
    assert ([count] + more)[1..] == more;
  }

  /** A request that wraps the running need to 0 is picked, and picking starts anew. */
  lemma PickFrontThen(front: seq<uint32>, last: uint32, back: seq<uint32>, total: uint32)
    requires Sum(front) <= total && Sum(front) + last == TWO_TO_32
    ensures PickLength(front + ([last] + back), total, 0) == |front| + 1 + PickLength(back, total, 0)
  {
    PickFront(front, [last] + back, total, 0);
    assert ([last] + back)[1..] == back;
  }

  /** Exactly how large requests may be for the sum of a full batch to stay inside a uint32. */
  lemma AskedForExactIff(largest: uint32)
    ensures (forall counts: seq<uint32> {:trigger Sum(counts)} ::
              IsBatch(counts, largest) ==> WrapU32(Sum(counts)) == Sum(counts))
            <==> largest <= MAX_SAFE_COUNT
  {
    if largest <= MAX_SAFE_COUNT {
      forall counts: seq<uint32> | IsBatch(counts, largest)
        ensures WrapU32(Sum(counts)) == Sum(counts)
      {
        SumBound(counts, MAX_SAFE_COUNT);
      }
    } else {
      WrappingBatchSums(largest);
      assert WrapU32(Sum(WrappingBatch(largest))) != TWO_TO_32;
    }
  }
}
