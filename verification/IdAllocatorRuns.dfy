/** Safety of the batching allocator over whole runs, and when a batch is served completely. */
module IdAllocatorRuns {
  import opened Wrappers
  import opened IdRanges
  import opened IdAllocatorSpec
  import opened LocalAllocators

  /** What wakes the main loop up once: a batch of requests, a number of forced syncs, or a tick. */
  datatype Event =
    | Batch(counts: seq<uint32>, answer: Answer)
    | ForceSync(waiters: nat, answer: Answer)
    | Tick(answer: Answer)

  /** The cache together with the blocks granted and the ranges handed out so far, in order. A cache that was taken from
      a declined answer is a phantom; strays are the ranges served from one, and declines says how many came with a
      count. */
  datatype History = History(
    cache: Cache,
    blocks: seq<Range>,
    served: seq<Range>,
    phantom: bool,
    strays: seq<Range>,
    declines: nat)

  const Start := History(Cache(0, 0), [], [], false, [], 0)

  /** Whether the root coordinator is asked: not for a batch that is served from the cache. */
  predicate Asks(h: History, e: Event) {
    e.Batch? ==> |ServePass(h.cache, e.counts).ranges| < |e.counts|
  }

  /** The size that it is asked for. */
  function Asked(h: History, e: Event): uint32 {
    if e.Batch? then AskedFor(e.counts[|ServePass(h.cache, e.counts).ranges|..]) else COUNT_PER_RPC
  }

  function Next(h: History, e: Event): History {
    match e
    case Batch(counts, answer) =>
      var h1 := Serve(h, counts);
      var rest := counts[|ServePass(h.cache, counts).ranges|..];
      if rest == [] || answer.Refused? then h1 else Serve(Adopt(h1, answer), rest)
    case ForceSync(_, answer) => Adopt(h, answer)
    case Tick(answer) => Adopt(h, answer)
  }

  /** One pass over the requests that fit the cache. */
  function Serve(h: History, counts: seq<uint32>): History {
    var pass := ServePass(h.cache, counts);
    h.(cache := pass.cache, served := h.served + pass.ranges,
       strays := if h.phantom then h.strays + pass.ranges else h.strays)
  }

  function Adopt(h: History, answer: Answer): History {
    match answer
    case Refused => h
    case Declined(count) =>
      h.(cache := SyncStep(h.cache, answer), phantom := true, declines := h.declines + (if count > 0 then 1 else 0))
    case Grant(_, _) =>
      h.(cache := SyncStep(h.cache, answer), blocks := h.blocks + [BlockOf(answer)], phantom := false)
  }

  function Run(h: History, events: seq<Event>): History
    decreases events
  {
    if events == [] then h else Run(Next(h, events[0]), events[1..])
  }

  /** What a run does with a batch is what the iteration of the allocator does. */
  lemma BatchIsPasses(h: History, counts: seq<uint32>, answer: Answer)
    ensures var next := Next(h, Batch(counts, answer));
            var step := BatchStep(h.cache, counts, answer);
            next.cache == step.cache && next.served == h.served + step.ranges
  {
    var first := ServePass(h.cache, counts).ranges;
    var rest := counts[|first|..];
    assert first + [] == first;
    if rest != [] && !answer.Refused? {
      var second := ServePass(SyncStep(h.cache, answer), rest).ranges;
      Associative(h.served, first, second);
    }
  }

  // ----- What clients and the root coordinator promise -----

  /** A granted block shares no ID with the blocks before it, nor with the first `low` IDs, which is where declined
      answers lead. */
  ghost predicate FreshAnswer(h: History, answer: Answer, low: uint32) {
    match answer
    case Refused => true
    case Declined(count) => count <= low
    case Grant(_, _) =>
      Apart(BlockOf(answer), Range(0, low)) && forall i :: 0 <= i < |h.blocks| ==> Apart(h.blocks[i], BlockOf(answer))
  }

  ghost predicate Fresh(h: History, events: seq<Event>, low: uint32)
    decreases events
  {
    events != [] ==>
      (Asks(h, events[0]) ==> FreshAnswer(h, events[0].answer, low)) && Fresh(Next(h, events[0]), events[1..], low)
  }

  /** No uint32 sum wraps around in a pass over the requests that are left. */
  ghost predicate PassFits(h: History, counts: seq<uint32>) {
    FitsWord(h.cache) ==> NoWrap(counts, Available(h.cache), 0)
  }

  ghost predicate StepFits(h: History, e: Event) {
    e.Batch? ==>
      && PassFits(h, e.counts)
      && (Asks(h, e) && !e.answer.Refused? ==>
            PassFits(Adopt(Serve(h, e.counts), e.answer), e.counts[|ServePass(h.cache, e.counts).ranges|..]))
  }

  /** No uint32 sum wraps around in the whole run. IdAllocatorLimits says which sizes give that. */
  ghost predicate NeverWraps(h: History, events: seq<Event>)
    decreases events
  {
    events != [] ==> StepFits(h, events[0]) && NeverWraps(Next(h, events[0]), events[1..])
  }

  // ----- Every range has its place -----

  ghost function Unused(h: History): Range {
    Range(h.cache.idStart, h.cache.idEnd)
  }

  /** A non-empty range lies inside one granted block. */
  ghost predicate InSomeBlock(r: Range, blocks: seq<Range>) {
    r.start == r.end || exists b :: 0 <= b < |blocks| && r.Within(blocks[b])
  }

  /** A non-empty range lies among the first `low` IDs. */
  ghost predicate IsLow(r: Range, low: uint32) {
    r.start == r.end || r.Within(Range(0, low))
  }

  ghost predicate EachInABlock(h: History) {
    forall i :: 0 <= i < |h.served| ==> InSomeBlock(h.served[i], h.blocks)
  }

  /** No ID was served from a declined answer. */
  ghost predicate NoStrayIds(h: History) {
    forall i :: 0 <= i < |h.strays| ==> h.strays[i].start == h.strays[i].end
  }

  /** The invariant that every run keeps: blocks lie above the low IDs, and the cache and every range lie in a block or,
      as strays, among the low IDs; without a declined answer that came with a count there is nothing among these. */
  ghost predicate Placed(h: History, low: uint32) {
    && FitsWord(h.cache)
    && (forall i :: 0 <= i < |h.blocks| ==> Apart(h.blocks[i], Range(0, low)))
    && (if h.phantom then IsLow(Unused(h), low) else InSomeBlock(Unused(h), h.blocks))
    && (forall i :: 0 <= i < |h.served| ==> InSomeBlock(h.served[i], h.blocks) || h.served[i] in h.strays)
    && (forall i :: 0 <= i < |h.strays| ==> IsLow(h.strays[i], low) && h.strays[i] in h.served)
    && (h.declines == 0 ==> NoStrayIds(h) && (h.phantom ==> h.cache.idStart == h.cache.idEnd))
    && (forall i :: 0 <= i < |h.served| ==> h.served[i].start <= h.served[i].end)
  }

  /** No two ranges share an ID, and none shares one with what the cache still has. */
  ghost predicate Disjoint(h: History) {
    PairwiseApart(h.served) && forall i :: 0 <= i < |h.served| ==> Apart(h.served[i], Unused(h))
  }

  lemma {:induction false} DeclinesGrow(h: History, events: seq<Event>)
    ensures h.declines <= Run(h, events).declines
    decreases events
  {
    if events != [] {
      DeclinesGrow(Next(h, events[0]), events[1..]);
    }
  }

  /** MAIN RESULT: over every run without wrapping sums, with granted blocks that share no ID, the ranges handed out
      share no ID either, if at most one declined answer came with a count. IdAllocatorLimits says when that fails. */
  lemma RunsNeverReuseIds(events: seq<Event>, low: uint32)
    requires Fresh(Start, events, low) && NeverWraps(Start, events)
    requires Run(Start, events).declines <= 1
    ensures PairwiseApart(Run(Start, events).served)
  {
    RunDisjoint(Start, events, low);
  }

  /** MAIN RESULT: over every such run, with any number of declined answers, each range lies inside one granted block if
      and only if no ID was served from a declined answer. */
  lemma RunsStayInBlocksIff(events: seq<Event>, low: uint32)
    requires Fresh(Start, events, low) && NeverWraps(Start, events)
    ensures EachInABlock(Run(Start, events)) <==> NoStrayIds(Run(Start, events))
    ensures FitsWord(Run(Start, events).cache)
  {
    RunPlaced(Start, events, low);
    PlacedInBlocksIff(Run(Start, events), low);
  }

  lemma PlacedInBlocksIff(h: History, low: uint32)
    requires Placed(h, low)
    ensures EachInABlock(h) <==> NoStrayIds(h)
  {
    if EachInABlock(h) {
      forall i | 0 <= i < |h.strays|
        ensures h.strays[i].start == h.strays[i].end
      {
        var k :| 0 <= k < |h.served| && h.served[k] == h.strays[i];
        LowIsInNoBlock(h.strays[i], h.blocks, low);
      }
    }
  }

  /** A range with an ID is not both low and in a block. */
  lemma LowIsInNoBlock(r: Range, blocks: seq<Range>, low: uint32)
    requires forall b :: 0 <= b < |blocks| ==> Apart(blocks[b], Range(0, low))
    requires IsLow(r, low) && r.start <= r.end
    ensures forall b :: 0 <= b < |blocks| && r.Within(blocks[b]) ==> r.start == r.end
  {
    forall b | 0 <= b < |blocks| && r.Within(blocks[b])
      ensures r.start == r.end
    {
      assert Apart(blocks[b], Range(0, low));
      assert !(blocks[b].Has(r.start) && Range(0, low).Has(r.start));
    }
  }

  lemma {:induction false} RunPlaced(h: History, events: seq<Event>, low: uint32)
    requires Placed(h, low) && Fresh(h, events, low) && NeverWraps(h, events)
    ensures Placed(Run(h, events), low)
    decreases events
  {
    if events != [] {
      StepPlaced(h, events[0], low);
      RunPlaced(Next(h, events[0]), events[1..], low);
    }
  }

  lemma {:induction false} RunDisjoint(h: History, events: seq<Event>, low: uint32)
    requires Placed(h, low) && Disjoint(h) && Fresh(h, events, low) && NeverWraps(h, events)
    requires Run(h, events).declines <= 1
    ensures Disjoint(Run(h, events))
    decreases events
  {
    if events != [] {
      DeclinesGrow(Next(h, events[0]), events[1..]);
      StepPlaced(h, events[0], low);
      StepDisjoint(h, events[0], low);
      RunDisjoint(Next(h, events[0]), events[1..], low);
    }
  }

  lemma StepPlaced(h: History, e: Event, low: uint32)
    requires Placed(h, low) && StepFits(h, e)
    requires Asks(h, e) ==> FreshAnswer(h, e.answer, low)
    ensures Placed(Next(h, e), low)
  {
    if e.Batch? {
      ServePlaced(h, e.counts, low);
      if Asks(h, e) && !e.answer.Refused? {
        AdoptPlaced(Serve(h, e.counts), e.answer, low);
        ServePlaced(Adopt(Serve(h, e.counts), e.answer), e.counts[|ServePass(h.cache, e.counts).ranges|..], low);
      }
    } else {
      AdoptPlaced(h, e.answer, low);
    }
  }

  lemma StepDisjoint(h: History, e: Event, low: uint32)
    requires Placed(h, low) && Disjoint(h) && StepFits(h, e)
    requires Asks(h, e) ==> FreshAnswer(h, e.answer, low)
    requires Next(h, e).declines <= 1
    ensures Disjoint(Next(h, e))
  {
    if e.Batch? {
      ServePlaced(h, e.counts, low);
      ServeDisjoint(h, e.counts, low);
      if Asks(h, e) && !e.answer.Refused? {
        AdoptPlaced(Serve(h, e.counts), e.answer, low);
        AdoptDisjoint(Serve(h, e.counts), e.answer, low);
        ServeDisjoint(Adopt(Serve(h, e.counts), e.answer), e.counts[|ServePass(h.cache, e.counts).ranges|..], low);
      }
    } else {
      AdoptDisjoint(h, e.answer, low);
    }
  }

  lemma AdoptPlaced(h: History, answer: Answer, low: uint32)
    requires Placed(h, low) && FreshAnswer(h, answer, low)
    ensures Placed(Adopt(h, answer), low)
  {
    if answer.Grant? {
      var h' := Adopt(h, answer);
      assert h'.blocks[|h.blocks|] == BlockOf(answer);
      forall i | 0 <= i < |h.served|
        ensures InSomeBlock(h.served[i], h'.blocks) || h.served[i] in h.strays
      {
        if InSomeBlock(h.served[i], h.blocks) {
          StillInABlock(h.served[i], h.blocks, BlockOf(answer));
        }
      }
    }
  }

  /** What a new block or phantom shares no ID with: every range handed out, unless a phantom was there before. */
  lemma AdoptDisjoint(h: History, answer: Answer, low: uint32)
    requires Placed(h, low) && Disjoint(h) && FreshAnswer(h, answer, low)
    requires Adopt(h, answer).declines <= 1
    ensures Disjoint(Adopt(h, answer))
  {
    if !answer.Refused? {
      forall i | 0 <= i < |h.served|
        ensures Apart(h.served[i], BlockOf(answer))
      {
        ServedIsApart(h, answer, low, i);
      }
    }
  }

  lemma ServedIsApart(h: History, answer: Answer, low: uint32, i: nat)
    requires Placed(h, low) && FreshAnswer(h, answer, low) && !answer.Refused? && i < |h.served|
    requires Adopt(h, answer).declines <= 1
    ensures Apart(h.served[i], BlockOf(answer))
  {
    var r, block := h.served[i], BlockOf(answer);
    if r.start != r.end && block.start < block.end {
      if InSomeBlock(r, h.blocks) {
        var b :| 0 <= b < |h.blocks| && r.Within(h.blocks[b]);
        assert Apart(h.blocks[b], Range(0, low));
        assert Apart(h.blocks[b], block) by {
          if answer.Declined? { StaysApart(h.blocks[b], Range(0, low), block); }
        }
        PartIsApart(r, h.blocks[b], block);
      } else {
        assert answer.Grant?;
        PartIsApart(r, Range(0, low), block);
      }
    }
  }

  lemma StillInABlock(r: Range, blocks: seq<Range>, block: Range)
    requires InSomeBlock(r, blocks)
    ensures InSomeBlock(r, blocks + [block])
  {
    if r.start != r.end {
      var b :| 0 <= b < |blocks| && r.Within(blocks[b]);
      assert r.Within((blocks + [block])[b]);
    }
  }

  lemma StaysApart(a: Range, b: Range, part: Range)
    requires Apart(a, b) && part.Within(b)
    ensures Apart(a, part)
  {
    assert forall id :: part.Has(id) ==> b.Has(id);
  }

  lemma PartIsApart(part: Range, a: Range, b: Range)
    requires (Apart(a, b) || Apart(b, a)) && part.Within(a)
    ensures Apart(part, b)
  {
    assert forall id :: part.Has(id) ==> a.Has(id);
  }

  /** The ranges of a layout follow one another inside the stretch that their sizes add up to. */
  lemma LayoutRises(start: int, counts: seq<uint32>)
    ensures var ranges := Layout(start, counts);
            && (forall i :: 0 <= i < |ranges| ==>
                  start <= ranges[i].start <= ranges[i].end <= start + Sum(counts))
            && (forall i, j :: 0 <= i < j < |ranges| ==> ranges[i].end <= ranges[j].start)
  {
    forall i | 0 <= i < |counts|
      ensures var ranges := Layout(start, counts);
              && start <= ranges[i].start <= ranges[i].end <= start + Sum(counts)
              && forall j :: i < j < |ranges| ==> ranges[i].end <= ranges[j].start
    {
      LayoutShape(start, counts, i);
    }
  }

  /** A pass hands out parts of the cache, one behind the other, and leaves the rest. */
  lemma ServeTakes(h: History, counts: seq<uint32>)
    requires FitsWord(h.cache) && PassFits(h, counts)
    ensures var ranges, h' := ServePass(h.cache, counts).ranges, Serve(h, counts);
            && FitsWord(h'.cache) && Unused(h').Within(Unused(h))
            && (forall i :: 0 <= i < |ranges| ==>
                  ranges[i].start <= ranges[i].end <= h'.cache.idStart && ranges[i].Within(Unused(h)))
            && (forall i, j :: 0 <= i < j < |ranges| ==> ranges[i].end <= ranges[j].start)
  {
    PassTakes(h.cache, counts);
    LayoutRises(h.cache.idStart, counts[..|ServePass(h.cache, counts).ranges|]);
  }

  lemma ServePlaced(h: History, counts: seq<uint32>, low: uint32)
    requires Placed(h, low) && PassFits(h, counts)
    ensures Placed(Serve(h, counts), low)
  {
    ServeTakes(h, counts);
    var ranges, h' := ServePass(h.cache, counts).ranges, Serve(h, counts);
    forall i | 0 <= i < |ranges|
      ensures if h.phantom then IsLow(ranges[i], low) else InSomeBlock(ranges[i], h.blocks)
      ensures h.phantom && h.declines == 0 ==> ranges[i].start == ranges[i].end
    {
    }
    if !h.phantom {
      PartInBlock(Unused(h'), Unused(h), h.blocks);
    }
    forall i | 0 <= i < |h'.served|
      ensures InSomeBlock(h'.served[i], h'.blocks) || h'.served[i] in h'.strays
      ensures h'.served[i].start <= h'.served[i].end
    {
      if i >= |h.served| {
        assert h'.served[i] == ranges[i - |h.served|];
      }
    }
    forall i | 0 <= i < |h'.strays|
      ensures IsLow(h'.strays[i], low) && h'.strays[i] in h'.served
      ensures h'.declines == 0 ==> h'.strays[i].start == h'.strays[i].end
    {
      if i >= |h.strays| {
        assert h'.strays[i] == ranges[i - |h.strays|] == h'.served[|h.served| + (i - |h.strays|)];
      }
    }
  }

  lemma PartInBlock(part: Range, r: Range, blocks: seq<Range>)
    requires InSomeBlock(r, blocks) && part.Within(r) && part.start <= part.end
    ensures InSomeBlock(part, blocks)
  {
    if r.start != r.end {
      var b :| 0 <= b < |blocks| && r.Within(blocks[b]);
      assert part.Within(blocks[b]);
    }
  }

  lemma ServeDisjoint(h: History, counts: seq<uint32>, low: uint32)
    requires Placed(h, low) && Disjoint(h) && PassFits(h, counts)
    ensures Disjoint(Serve(h, counts))
  {
    ServeTakes(h, counts);
    var ranges, h' := ServePass(h.cache, counts).ranges, Serve(h, counts);
    forall i | 0 <= i < |h'.served|
      ensures Apart(h'.served[i], Unused(h'))
    {
      if i < |h.served| {
        StaysApart(h.served[i], Unused(h), Unused(h'));
      } else {
        assert h'.served[i] == ranges[i - |h.served|];
      }
    }
    forall i, j | 0 <= i < j < |h'.served|
      ensures Apart(h'.served[i], h'.served[j])
    {
      if j >= |h.served| {
        assert h'.served[j] == ranges[j - |h.served|];
        if i < |h.served| {
          StaysApart(h.served[i], Unused(h), h'.served[j]);
        } else {
          assert h'.served[i] == ranges[i - |h.served|];
        }
      }
    }
  }

  // ----- Order -----

  ghost predicate Ordered(rs: seq<Range>) {
    forall i, j :: 0 <= i < j < |rs| ==> rs[i].end <= rs[j].start
  }

  /** Each block that is adopted lies above the one before it. */
  ghost predicate Rising(h: History, events: seq<Event>)
    decreases events
  {
    events != [] ==>
      && (Asks(h, events[0]) && !events[0].answer.Refused? ==> h.cache.idEnd <= BlockOf(events[0].answer).start)
      && Rising(Next(h, events[0]), events[1..])
  }

  ghost predicate InOrder(h: History) {
    && FitsWord(h.cache)
    && Ordered(h.served)
    && forall i :: 0 <= i < |h.served| ==> h.served[i].end <= h.cache.idStart
  }

  /** If each block lies above the one it replaces, IDs only ever grow: in the order in which
      requests are served, every range ends before the next one starts. */
  lemma {:induction false} RunsHandOutRisingIds(h: History, events: seq<Event>)
    requires InOrder(h) && Rising(h, events) && NeverWraps(h, events)
    ensures InOrder(Run(h, events))
    decreases events
  {
    if events != [] {
      var e := events[0];
      if e.Batch? {
        BatchInOrder(h, e.counts, e.answer);
      }
      RunsHandOutRisingIds(Next(h, e), events[1..]);
    }
  }

  lemma ServeInOrder(h: History, counts: seq<uint32>)
    requires InOrder(h) && PassFits(h, counts)
    ensures InOrder(Serve(h, counts)) && Serve(h, counts).cache.idEnd == h.cache.idEnd
  {
    ServeTakes(h, counts);
  }

  lemma BatchInOrder(h: History, counts: seq<uint32>, answer: Answer)
    requires InOrder(h) && StepFits(h, Batch(counts, answer))
    requires Asks(h, Batch(counts, answer)) && !answer.Refused? ==> h.cache.idEnd <= BlockOf(answer).start
    ensures InOrder(Next(h, Batch(counts, answer)))
  {
    ServeInOrder(h, counts);
    if Asks(h, Batch(counts, answer)) && !answer.Refused? {
      ServeInOrder(Adopt(Serve(h, counts), answer), counts[|ServePass(h.cache, counts).ranges|..]);
    }
  }

  // ----- The life of one block -----

  /** The sizes served out of the cached block while no further block is adopted, in order. */
  function ServedSizes(c: Cache, events: seq<Event>): seq<uint32>
    decreases events
  {
    if events == [] then []
    else if events[0].Batch? then
      var pass := ServePass(c, events[0].counts);
      events[0].counts[..|pass.ranges|] + ServedSizes(pass.cache, events[1..])
    else ServedSizes(c, events[1..])
  }

  /** Every call to the root coordinator fails. */
  ghost predicate NoBlock(events: seq<Event>) {
    forall e :: 0 <= e < |events| ==> events[e].answer.Refused?
  }

  lemma LayoutJoin(served: seq<Range>, start: int, now: seq<uint32>, later: seq<uint32>)
    ensures Sum(now + later) == Sum(now) + Sum(later)
    ensures served + Layout(start, now) + Layout(start + Sum(now), later) == served + Layout(start, now + later)
  {
    SumAppend(now, later);
    LayoutAppend(start, now, later);
  }

  lemma ServeIs(h: History, counts: seq<uint32>)
    requires FitsWord(h.cache) && PassFits(h, counts)
    ensures var now := counts[..|ServePass(h.cache, counts).ranges|];
            && h.cache.idStart + Sum(now) <= h.cache.idEnd
            && Serve(h, counts).cache == Cache(h.cache.idStart + Sum(now), h.cache.idEnd)
            && Serve(h, counts).served == h.served + Layout(h.cache.idStart, now)
  {
    PassTakes(h.cache, counts);
  }

  lemma {:induction false} BlockLayout(h: History, events: seq<Event>)
    requires FitsWord(h.cache) && NoBlock(events) && NeverWraps(h, events)
    ensures var sizes := ServedSizes(h.cache, events);
            && h.cache.idStart + Sum(sizes) <= h.cache.idEnd
            && Run(h, events).cache == Cache(h.cache.idStart + Sum(sizes), h.cache.idEnd)
            && Run(h, events).served == h.served + Layout(h.cache.idStart, sizes)
    decreases events
  {
    if events == [] {
      assert h.served + [] == h.served;
    } else {
      var e, more := events[0], events[1..];
      assert e.answer.Refused?;
      assert NoBlock(more) by {
        assert forall i :: 0 <= i < |more| ==> more[i] == events[i+1];
      }
      if e.Batch? {
        ServeIs(h, e.counts);
        var pass := ServePass(h.cache, e.counts);
        BlockLayout(Serve(h, e.counts), more);
        LayoutJoin(h.served, h.cache.idStart, e.counts[..|pass.ranges|], ServedSizes(pass.cache, more));
      } else {
        BlockLayout(h, more);
      }
    }
  }

  /** As long as the block is not replaced, all batches together leave the block that the one-block allocator leaves
      when it is asked for their served sizes, one at a time, and hand out the ranges that it allocates; only size 0
      it refuses. So the two answer alike exactly if no request of size 0 was served. */
  lemma BlockRefinesLocal(h: History, events: seq<Event>)
    requires FitsWord(h.cache) && NoBlock(events) && NeverWraps(h, events)
    ensures var sizes := ServedSizes(h.cache, events);
            var (left, answers) := AllocAll(h.cache, sizes);
            && left == Run(h, events).cache
            && h.served <= Run(h, events).served
            && var ranges := Run(h, events).served[|h.served|..];
            && |ranges| == |sizes|
            && answers == AnswersFor(sizes, ranges)
            && (answers == AllAllocated(ranges) <==> NoneEmpty(sizes))
  {
    var sizes := ServedSizes(h.cache, events);
    BlockLayout(h, events);
    AllocAllFits(h.cache, sizes);
    AnswersAllocatedIff(sizes, Layout(h.cache.idStart, sizes));
    assert (h.served + Layout(h.cache.idStart, sizes))[|h.served|..] == Layout(h.cache.idStart, sizes);
  }

  // ----- Serving a batch -----

  /** Served requests are a prefix of the batch and failed ones the rest; a failure carries the sync
      error exactly when the call to the root coordinator failed in this very iteration. */
  lemma ServedPrefixFailedSuffix(c: Cache, counts: seq<uint32>, answer: Answer)
    ensures var r := BatchStep(c, counts, answer);
            && (forall i :: 0 <= i < |counts| ==> (r.outcomes[i].Served? <==> i < |r.ranges|))
            && (forall i :: 0 <= i < |r.ranges| ==>
                  && r.outcomes[i] == Served(r.ranges[i].start)
                  && r.ranges[i].end == r.ranges[i].start + counts[i])
            && (forall i :: |r.ranges| <= i < |counts| ==>
                  r.outcomes[i] == Failed(if answer.Refused? then SyncFailed else Unexpected))
  {
    var first := ServePass(c, counts).ranges;
    var rest := counts[|first|..];
    LayoutSizes(c.idStart, counts[..|first|]);
    if rest != [] && !answer.Refused? {
      var second := ServePass(SyncStep(c, answer), rest).ranges;
      LayoutSizes(BlockOf(answer).start, rest[..|second|]);
    }
  }

  lemma LayoutSizes(start: int, counts: seq<uint32>)
    ensures forall i :: 0 <= i < |counts| ==>
              Layout(start, counts)[i].end == Layout(start, counts)[i].start + counts[i]
  {
    forall i | 0 <= i < |counts|
      ensures Layout(start, counts)[i].end == Layout(start, counts)[i].start + counts[i]
    {
      LayoutShape(start, counts, i);
    }
  }

  /** If what comes back carries at least the count that was asked for, no request of a batch of
      acceptable size fails, whatever was left in the cache. */
  lemma GenerousGrantServesAll(c: Cache, counts: seq<uint32>, answer: Answer)
    requires IsBatch(counts, MAX_SAFE_COUNT)
    requires !answer.Refused?
    requires answer.count >= AskedFor(counts[|ServePass(c, counts).ranges|..])
    ensures forall i :: 0 <= i < |counts| ==> BatchStep(c, counts, answer).outcomes[i].Served?
  {
    var first := ServePass(c, counts).ranges;
    var rest := counts[|first|..];
    AskedForExactIff(MAX_SAFE_COUNT);
    assert WrapU32(Sum(rest)) == Sum(rest);
    PickAll(rest, answer.count, 0);
    assert Available(SyncStep(c, answer)) == answer.count;
    ServedPrefixFailedSuffix(c, counts, answer);
  }

  lemma {:induction false} PickAll(counts: seq<uint32>, total: uint32, need: uint32)
    requires need + Sum(counts) <= total
    ensures PickLength(counts, total, need) == |counts|
  {
    if counts != [] {
      PickAll(counts[1..], total, need + counts[0]);
    }
  }
}
