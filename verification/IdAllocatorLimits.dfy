/** Where the batching allocator stops being safe: exactly the block and request sizes, and the numbers of declined
    answers, for which some run hands out one ID twice. */
module IdAllocatorLimits {
  import opened Wrappers
  import opened IdRanges
  import opened IdAllocatorSpec
  import opened IdAllocatorRuns

  /** A batch fits the channel, no request exceeds `largest`, and no adopted count `granted`. */
  ghost predicate SmallEvent(e: Event, granted: uint32, largest: uint32) {
    && (e.Batch? ==> IsBatch(e.counts, largest))
    && (!e.answer.Refused? ==> e.answer.count <= granted)
  }

  ghost predicate Small(events: seq<Event>, granted: uint32, largest: uint32) {
    forall i :: 0 <= i < |events| ==> SmallEvent(events[i], granted, largest)
  }

  lemma SmallRest(events: seq<Event>, granted: uint32, largest: uint32)
    requires events != [] && Small(events, granted, largest)
    ensures SmallEvent(events[0], granted, largest) && Small(events[1..], granted, largest)
  {
  }

  /** What the clients and the root coordinator promise, whatever the root coordinator was asked for. */
  ghost predicate Fair(events: seq<Event>, granted: uint32, largest: uint32, low: uint32) {
    Small(events, granted, largest) && Fresh(Start, events, low)
  }

  ghost predicate SizeUpTo(h: History, n: int) {
    0 <= h.cache.idEnd - h.cache.idStart <= n
  }

  // ----- Harmless sizes -----

  lemma ServeHarmless(h: History, counts: seq<uint32>, granted: uint32, largest: uint32)
    requires SizeUpTo(h, granted) && IsBatch(counts, largest) && Harmless(granted, largest)
    ensures PassFits(h, counts) && SizeUpTo(Serve(h, counts), granted)
  {
    HarmlessNoWrap(counts, Available(h.cache), largest);
    PassTakes(h.cache, counts);
  }

  lemma StepHarmless(h: History, e: Event, granted: uint32, largest: uint32)
    requires SizeUpTo(h, granted) && SmallEvent(e, granted, largest) && Harmless(granted, largest)
    ensures StepFits(h, e) && SizeUpTo(Next(h, e), granted)
  {
    if e.Batch? {
      ServeHarmless(h, e.counts, granted, largest);
      if Asks(h, e) && !e.answer.Refused? {
        ServeHarmless(Adopt(Serve(h, e.counts), e.answer), e.counts[|ServePass(h.cache, e.counts).ranges|..],
                      granted, largest);
      }
    }
  }

  /** With harmless sizes no sum ever wraps around. */
  lemma {:induction false} HarmlessNeverWraps(h: History, events: seq<Event>, granted: uint32, largest: uint32)
    requires SizeUpTo(h, granted) && Small(events, granted, largest) && Harmless(granted, largest)
    ensures NeverWraps(h, events)
    decreases events
  {
    if events != [] {
      SmallRest(events, granted, largest);
      StepHarmless(h, events[0], granted, largest);
      HarmlessNeverWraps(Next(h, events[0]), events[1..], granted, largest);
    }
  }

  // ----- Answers with the count that was asked for -----

  /** The largest request size for which no sum wraps around if the answers carry the counts that are asked for. */
  const MAX_ASKED_COUNT := 858821

  /** What comes back carries the count that was asked for, as the root coordinator's answers do, or, from one that is
      not healthy, none at all. */
  ghost predicate AnswersAsAsked(h: History, e: Event) {
    !e.answer.Refused? ==> e.answer.count == Asked(h, e) || e.answer == Declined(0)
  }

  ghost predicate AsAsked(h: History, events: seq<Event>)
    decreases events
  {
    events != [] ==>
      (Asks(h, events[0]) ==> AnswersAsAsked(h, events[0])) && AsAsked(Next(h, events[0]), events[1..])
  }

  ghost predicate Batches(events: seq<Event>, largest: uint32) {
    forall i :: 0 <= i < |events| ==> (events[i].Batch? ==> IsBatch(events[i].counts, largest))
  }

  lemma BatchesRest(events: seq<Event>, largest: uint32)
    requires events != [] && Batches(events, largest)
    ensures (events[0].Batch? ==> IsBatch(events[0].counts, largest)) && Batches(events[1..], largest)
  {
  }

  ghost predicate FairAsAsked(events: seq<Event>, largest: uint32, low: uint32) {
    Batches(events, largest) && Fresh(Start, events, low) && AsAsked(Start, events)
  }

  /** A block of the size that is asked for a batch: no sum wraps, and what is left is small again. */
  lemma AskedIsEnough(counts: seq<uint32>, largest: uint32)
    requires IsBatch(counts, largest) && largest <= MAX_ASKED_COUNT
    ensures NoWrap(counts, AskedFor(counts), 0)
    ensures AskedFor(counts) - Sum(counts[..PickLength(counts, AskedFor(counts), 0)]) <= MAX_ASKED_COUNT
  {
    var asked, sum := AskedFor(counts), Sum(counts);
    SumBound(counts, MAX_ASKED_COUNT);
    assert sum <= MAX_BATCH * MAX_ASKED_COUNT by {
      SmallerFactor(MAX_ASKED_COUNT, |counts|, MAX_BATCH, MAX_ASKED_COUNT * MAX_BATCH);
    }
    var k := PickLength(counts, asked, 0);
    if sum < TWO_TO_32 {
      SumNeverWraps(counts, asked, 0);
      PickAll(counts, asked, 0);
      assert counts[..|counts|] == counts;
    } else {
      assert WrapU32(sum) == sum - TWO_TO_32;
      SmallNeverWraps(counts, asked, 0, largest);
      PickWithin(counts, asked, 0);
      assert counts[..|counts|] == counts;
      SumTakeNext(counts, k);
    }
  }

  lemma StepAsAsked(h: History, e: Event, largest: uint32)
    requires SizeUpTo(h, MAX_ASKED_COUNT) && (e.Batch? ==> IsBatch(e.counts, largest)) && largest <= MAX_ASKED_COUNT
    requires Asks(h, e) ==> AnswersAsAsked(h, e)
    ensures StepFits(h, e) && SizeUpTo(Next(h, e), MAX_ASKED_COUNT)
  {
    if e.Batch? {
      ServeHarmless(h, e.counts, MAX_ASKED_COUNT, largest);
      if Asks(h, e) && !e.answer.Refused? {
        var rest := e.counts[|ServePass(h.cache, e.counts).ranges|..];
        if e.answer == Declined(0) {
          ServeHarmless(Adopt(Serve(h, e.counts), e.answer), rest, MAX_ASKED_COUNT, largest);
        } else {
          ServeAsAsked(Adopt(Serve(h, e.counts), e.answer), rest, largest);
        }
      }
    }
  }

  lemma ServeAsAsked(h: History, counts: seq<uint32>, largest: uint32)
    requires h.cache.idEnd - h.cache.idStart == AskedFor(counts)
    requires IsBatch(counts, largest) && largest <= MAX_ASKED_COUNT
    ensures PassFits(h, counts) && SizeUpTo(Serve(h, counts), MAX_ASKED_COUNT)
  {
    AskedIsEnough(counts, largest);
    PassTakes(h.cache, counts);
  }

  lemma {:induction false} AskedNeverWraps(h: History, events: seq<Event>, largest: uint32)
    requires SizeUpTo(h, MAX_ASKED_COUNT) && largest <= MAX_ASKED_COUNT
    requires Batches(events, largest) && AsAsked(h, events)
    ensures NeverWraps(h, events)
    decreases events
  {
    if events != [] {
      BatchesRest(events, largest);
      StepAsAsked(h, events[0], largest);
      AskedNeverWraps(Next(h, events[0]), events[1..], largest);
    }
  }

  // ----- Runs that hand out an ID twice -----

  lemma {:induction false} LayoutCovers(start: int, counts: seq<uint32>, id: int) returns (i: nat)
    requires start <= id < start + Sum(counts)
    ensures i < |counts| && Layout(start, counts)[i].Has(id)
    decreases counts
  {
    if id < start + counts[0] {
      i := 0;
    } else {
      i := LayoutCovers(start + counts[0], counts[1..], id);
      i := i + 1;
    }
  }

  /** A request for one ID is served from any cache that has one. */
  lemma PassOverOne(c: Cache)
    requires Available(c) >= 1
    ensures ServePass(c, [1]) == Pass(Cache(c.idStart + 1, c.idEnd), [Range(c.idStart, c.idStart + 1)])
  {
    var counts: seq<uint32> := [1];
    assert counts[1..] == [] && counts[..1] == counts;
    assert PickLength(counts, Available(c), 0) == 1 + PickLength([], Available(c), 1) == 1;
    assert Sum(counts) == 1 + Sum([]);
    assert Layout(c.idStart, counts) == [Range(c.idStart, c.idStart + 1)] + Layout(c.idStart + 1, []);
  }

  lemma ServeOne(h: History) returns (next: History)
    requires FitsWord(h.cache) && h.cache.idStart < h.cache.idEnd
    ensures next == Next(h, Batch([1], Refused)) && !Asks(h, Batch([1], Refused))
    ensures next.blocks == h.blocks && next.declines == h.declines
    ensures next.served == h.served + [Range(h.cache.idStart, h.cache.idStart + 1)]
  {
    PassOverOne(h.cache);
    next := Serve(h, [1]);
  }

  lemma RunStep(h: History, next: History, s: seq<Event>, i: nat, low: uint32)
    requires i < |s| && next == Next(h, s[i])
    requires Asks(h, s[i]) ==> FreshAnswer(h, s[i].answer, low)
    ensures Run(h, s[i..]) == Run(next, s[i+1..])
    ensures Fresh(next, s[i+1..], low) ==> Fresh(h, s[i..], low)
    ensures (Asks(h, s[i]) ==> AnswersAsAsked(h, s[i])) && AsAsked(next, s[i+1..]) ==> AsAsked(h, s[i..])
  {
    assert s[i..][1..] == s[i+1..] && s[i..][0] == s[i];
  }

  /** The next block is granted where some range has an ID already, and one ID is served from it. */
  function Again(id: int, n: uint32): seq<Event> {
    [ForceSync(1, Grant(id, n)), Batch([1], Refused)]
  }

  lemma AgainReuses(h: History, s: seq<Event>, i: nat, id: int, n: uint32, low: uint32, k: nat) returns (next: History)
    requires |s| == i + 2 && s[i..] == Again(id, n) && n > 0
    requires FreshAnswer(h, Grant(id, n), low)
    requires k < |h.served| && h.served[k].Has(id)
    ensures next == Run(h, s[i..]) && next.declines == h.declines && !PairwiseApart(next.served)
    ensures Fresh(h, s[i..], low) && (n == COUNT_PER_RPC ==> AsAsked(h, s[i..]))
  {
    assert s[i] == s[i..][0] && s[i+1] == s[i..][1] && s[i+2..] == [];
    var h1 := Adopt(h, Grant(id, n));
    next := ServeOne(h1);
    RunStep(h1, next, s, i + 1, low);
    RunStep(h, h1, s, i, low);
    assert next.served[k] == h.served[k] && next.served[|h.served|].Has(id);
    assert !Apart(next.served[k], next.served[|h.served|]);
  }

  /** A block is granted, a batch is served from it, the block behind it is granted, and one more ID is served. */
  function OverrunRun(counts: seq<uint32>, n: uint32, id: int): seq<Event> {
    [ForceSync(1, Grant(id, n)), Batch(counts, Refused)] + Again(id + n, n)
  }

  /** Serving from the first block of a run. */
  lemma FirstBlock(counts: seq<uint32>, n: uint32, id: int) returns (h1: History, h2: History)
    ensures h1 == Next(Start, ForceSync(1, Grant(id, n))) && h2 == Next(h1, Batch(counts, Refused))
    ensures h2.blocks == [Range(id, id + n)] && h2.declines == 0
    ensures h2.served == Layout(id, counts[..PickLength(counts, n, 0)])
  {
    h1 := Adopt(Start, Grant(id, n));
    h2 := Serve(h1, counts);
    assert Available(h1.cache) == n;
  }

  /** Whatever batch is picked past the end of its block: if the block behind is granted next, the ID at which it
      starts is handed out a second time, although no two blocks share an ID. */
  lemma OverrunReusesIds(counts: seq<uint32>, n: uint32, id: int, low: uint32)
    requires n > 0 && id >= low && Sum(counts[..PickLength(counts, n, 0)]) > n
    ensures Fresh(Start, OverrunRun(counts, n, id), low)
    ensures var h := Run(Start, OverrunRun(counts, n, id)); h.declines == 0 && !PairwiseApart(h.served)
  {
    var h1, h2 := FirstBlock(counts, n, id);
    var k := LayoutCovers(id, counts[..PickLength(counts, n, 0)], id + n);
    OverrunRunIs(OverrunRun(counts, n, id), counts, n, id, low, h1, h2, k);
  }

  lemma OverrunRunIs(s: seq<Event>, counts: seq<uint32>, n: uint32, id: int, low: uint32,
                     h1: History, h2: History, k: nat)
    requires n > 0 && id >= low && s == OverrunRun(counts, n, id)
    requires h1 == Next(Start, s[0]) && h2 == Next(h1, s[1])
    requires h2.blocks == [Range(id, id + n)] && h2.declines == 0
    requires k < |h2.served| && h2.served[k].Has(id + n)
    ensures Fresh(Start, s, low) && Run(Start, s).declines == 0 && !PairwiseApart(Run(Start, s).served)
  {
    assert s[2..] == Again(id + n, n);
    var h := AgainReuses(h2, s, 2, id + n, n, low, k);
    RunStep(h1, h2, s, 1, low);
    RunStep(Start, h1, s, 0, low);
    assert s[0..] == s;
  }

  /** For instance two requests that add up to 2^32, the first of which fits the block. */
  lemma OversizedRequestReusesIds(a: uint32, n: uint32, id: int, low: uint32)
    requires 0 < a <= n && id >= low
    ensures Fresh(Start, OverrunRun([a, TWO_TO_32 - a], n, id), low)
    ensures !PairwiseApart(Run(Start, OverrunRun([a, TWO_TO_32 - a], n, id)).served)
  {
    var last: uint32 := TWO_TO_32 - a;
    assert Sum([a]) == a + Sum([]) && Sum([last]) == last + Sum([]);
    SumAppend([a], [last]);
    assert [a] + ([last] + []) == [a, last] && [a, last][..2] == [a, last];
    PickFrontThen([a], last, [], n);
    OverrunReusesIds([a, last], n, id, low);
  }

  /** The root coordinator declines twice, each time with a count, and each time one ID is served. */
  function DeclinedRun(n: uint32): seq<Event> {
    [ForceSync(1, Declined(n)), Batch([1], Refused), ForceSync(1, Declined(n)), Batch([1], Refused)]
  }

  /** Two clients get the ID 0. */
  lemma TwoDeclinesReuseIds(n: uint32, low: uint32)
    requires 0 < n <= low
    ensures var h := Run(Start, DeclinedRun(n));
            h.served == [Range(0, 1), Range(0, 1)] && h.declines == 2 && h.blocks == [] && !PairwiseApart(h.served)
    ensures Fresh(Start, DeclinedRun(n), low) && (n == COUNT_PER_RPC ==> AsAsked(Start, DeclinedRun(n)))
  {
    var s := DeclinedRun(n);
    var h1 := Adopt(Start, Declined(n));
    var h2 := ServeOne(h1);
    var h3 := Adopt(h2, Declined(n));
    var h4 := ServeOne(h3);
    RunStep(h3, h4, s, 3, low);
    RunStep(h2, h3, s, 2, low);
    RunStep(h1, h2, s, 1, low);
    RunStep(Start, h1, s, 0, low);
    assert s[0..] == s && s[4..] == [];
    assert h4.served[0].Has(0) && h4.served[1].Has(0);
  }

  // ----- Runs in which declined answers do no harm -----

  /** No declined answer with a count is adopted if there can be none: counts are 0, or the low IDs are fewer than any
      count that is asked for. */
  lemma {:induction false} DeclinesStay(h: History, events: seq<Event>, granted: uint32, largest: uint32, low: uint32)
    requires Fresh(h, events, low)
    requires || low == 0
             || (granted == 0 && Small(events, granted, largest))
             || (low < COUNT_PER_RPC && AsAsked(h, events))
    ensures Run(h, events).declines == h.declines
    decreases events
  {
    if events != [] {
      assert Asks(h, events[0]) && events[0].answer.Declined? ==> events[0].answer.count == 0;
      if Small(events, granted, largest) {
        SmallRest(events, granted, largest);
      }
      DeclinesStay(Next(h, events[0]), events[1..], granted, largest, low);
    }
  }

  ghost predicate AllEmpty(rs: seq<Range>) {
    forall i :: 0 <= i < |rs| ==> rs[i].start == rs[i].end
  }

  lemma ServeNothing(h: History, counts: seq<uint32>)
    requires AllEmpty(h.served) && IsBatch(counts, 0)
    ensures AllEmpty(Serve(h, counts).served)
  {
    LayoutSizes(h.cache.idStart, counts[..|ServePass(h.cache, counts).ranges|]);
  }

  /** Requests for no IDs are served with no IDs. */
  lemma {:induction false} NothingIsServed(h: History, events: seq<Event>)
    requires AllEmpty(h.served) && Batches(events, 0)
    ensures AllEmpty(Run(h, events).served)
    decreases events
  {
    if events != [] {
      var e := events[0];
      BatchesRest(events, 0);
      if e.Batch? {
        ServeNothing(h, e.counts);
        if Asks(h, e) && !e.answer.Refused? {
          ServeNothing(Adopt(Serve(h, e.counts), e.answer), e.counts[|ServePass(h.cache, e.counts).ranges|..]);
        }
      }
      NothingIsServed(Next(h, e), events[1..]);
    }
  }

  lemma EmptyIsApart(rs: seq<Range>)
    requires AllEmpty(rs)
    ensures PairwiseApart(rs)
  {
  }

  // ----- Exactly when all runs are safe -----

  /** MAIN RESULT: for answers of up to `granted` IDs, requests of up to `largest`, and up to d declined answers with a
      count of up to `low`: the allocator never hands out an ID twice, in any run, if and only if the two sizes are
      harmless, and d is at most 1 or there is nothing that could be served twice. */
  lemma RunsSafeIff(granted: uint32, largest: uint32, low: uint32, d: nat)
    ensures (forall events {:trigger Run(Start, events)} ::
              Fair(events, granted, largest, low) && Run(Start, events).declines <= d
              ==> PairwiseApart(Run(Start, events).served))
            <==> Harmless(granted, largest) && (d <= 1 || granted == 0 || low == 0 || largest == 0)
  {
    if !Harmless(granted, largest) {
      var bad := HarmfulRun(granted, largest, low);
      assert !PairwiseApart(Run(Start, bad).served);
    } else if d <= 1 || granted == 0 || low == 0 || largest == 0 {
      forall events | Fair(events, granted, largest, low) && Run(Start, events).declines <= d
        ensures PairwiseApart(Run(Start, events).served)
      {
        FairRunIsSafe(events, granted, largest, low, d);
      }
    } else {
      TwoDeclinesReuseIds(1, low);
      assert Small(DeclinedRun(1), granted, largest);
      assert !PairwiseApart(Run(Start, DeclinedRun(1)).served);
    }
  }

  lemma HarmfulRun(granted: uint32, largest: uint32, low: uint32) returns (events: seq<Event>)
    requires !Harmless(granted, largest)
    ensures Fair(events, granted, largest, low)
    ensures Run(Start, events).declines == 0 && !PairwiseApart(Run(Start, events).served)
  {
    var bad := WrappingBatch(largest);
    WrappingBatchIsPicked(granted, largest);
    assert bad[..|bad|] == bad;
    OverrunReusesIds(bad, granted, low, low);
    events := OverrunRun(bad, granted, low);
  }

  lemma FairRunIsSafe(events: seq<Event>, granted: uint32, largest: uint32, low: uint32, d: nat)
    requires Fair(events, granted, largest, low) && Run(Start, events).declines <= d && Harmless(granted, largest)
    requires d <= 1 || granted == 0 || low == 0 || largest == 0
    ensures PairwiseApart(Run(Start, events).served)
  {
    if d > 1 && largest == 0 {
      assert Batches(events, 0);
      NothingIsServed(Start, events);
      EmptyIsApart(Run(Start, events).served);
    } else {
      if d > 1 {
        DeclinesStay(Start, events, granted, largest, low);
      }
      HarmlessNeverWraps(Start, events, granted, largest);
      RunsNeverReuseIds(events, low);
    }
  }

  // ----- ... with the counts that are asked for -----

  /** A batch of more than 2^32 IDs for which the block that is asked for is as small as the first half of it, so that
      the request in the middle wraps the running need to 0. */
  function LongBatch(largest: uint32): (counts: seq<uint32>)
    requires largest > MAX_ASKED_COUNT
  {
    WrappingBatch(largest) + Half(largest)
  }

  function Half(largest: uint32): (counts: seq<uint32>)
    requires largest > MAX_SAFE_COUNT
  {
    var before := TWO_TO_32 - largest;
    Repeat(before / largest, largest) + [before % largest]
  }

  lemma LongBatchIs(largest: uint32)
    requires largest > MAX_ASKED_COUNT
    ensures var counts, half := LongBatch(largest), Half(largest);
            && counts == half + [largest] + half && IsBatch(counts, largest) && half != [] && half[0] > 0
            && Sum(half) == TWO_TO_32 - largest && Sum(counts) == 2 * TWO_TO_32 - largest
  {
    var before := TWO_TO_32 - largest;
    var q, r := before / largest, before % largest;
    assert before == q * largest + r;
    SmallerFactor(q, MAX_ASKED_COUNT + 1, largest, before);
    assert 2 * q + 3 <= MAX_BATCH;
    SumWrapping(q, largest, r);
    var half := Half(largest);
    assert WrappingBatch(largest) == half + [largest];
    assert (half + [largest])[..|half|] == half;
    SumAppend(half + [largest], half);
    if q == 0 {
      assert q * largest == 0 && half[0] == r;
    } else {
      assert half[0] == Repeat(q, largest)[0];
    }
  }

  lemma AskedForLong(largest: uint32)
    requires largest > MAX_ASKED_COUNT
    ensures AskedFor(LongBatch(largest)) >= TWO_TO_32 - largest
    ensures 0 < AskedFor(LongBatch(largest)) < Sum(LongBatch(largest))
  {
    LongBatchIs(largest);
    assert WrapU32(Sum(LongBatch(largest))) == TWO_TO_32 - largest;
  }

  /** The whole batch is picked from the block that is asked for, though it is larger. */
  lemma LongBatchIsPicked(largest: uint32)
    requires largest > MAX_ASKED_COUNT
    ensures var counts := LongBatch(largest);
            PickLength(counts, 0, 0) == 0 && PickLength(counts, AskedFor(counts), 0) == |counts|
  {
    var half, total := Half(largest), AskedFor(LongBatch(largest));
    LongBatchIs(largest);
    AskedForLong(largest);
    PickFrontThen(half, largest, half, total);
    PickAll(half, total, 0);
    assert half + [largest] + half == half + ([largest] + half);
  }

  /** The long batch is served from exactly the block that is asked for it, and more. */
  function LongRun(largest: uint32, id: int): seq<Event>
    requires largest > MAX_ASKED_COUNT
  {
    var counts := LongBatch(largest);
    [Batch(counts, Grant(id, AskedFor(counts)))] + Again(id + AskedFor(counts), COUNT_PER_RPC)
  }

  lemma LongFirst(e: Event, counts: seq<uint32>, asked: uint32, id: int, low: uint32) returns (h1: History, k: nat)
    requires counts != [] && e == Batch(counts, Grant(id, asked)) && id >= low
    requires asked == AskedFor(counts) && 0 < asked < Sum(counts)
    requires PickLength(counts, 0, 0) == 0 && PickLength(counts, asked, 0) == |counts|
    ensures h1 == Next(Start, e) && Asks(Start, e) && Asked(Start, e) == asked
    ensures h1.blocks == [Range(id, id + asked)] && h1.declines == 0
    ensures k < |h1.served| && h1.served[k].Has(id + asked)
  {
    var answer := Grant(id, asked);
    assert Available(Start.cache) == 0 && counts[..0] == [] && counts[0..] == counts && counts[..|counts|] == counts;
    assert ServePass(Start.cache, counts) == Pass(Start.cache, []);
    assert Serve(Start, counts) == Start;
    h1 := Serve(Adopt(Start, answer), counts);
    assert Available(SyncStep(Start.cache, answer)) == asked;
    k := LayoutCovers(id, counts, id + asked);
  }

  lemma LongRunReusesIds(largest: uint32, id: int, low: uint32)
    requires largest > MAX_ASKED_COUNT && id >= low
    ensures FairAsAsked(LongRun(largest, id), largest, low)
    ensures var h := Run(Start, LongRun(largest, id)); h.declines == 0 && !PairwiseApart(h.served)
  {
    LongBatchIs(largest);
    LongBatchIsPicked(largest);
    AskedForLong(largest);
    var s, counts := LongRun(largest, id), LongBatch(largest);
    assert s[1..] == Again(id + AskedFor(counts), COUNT_PER_RPC);
    LongRunIs(s, counts, AskedFor(counts), id, low);
    assert Batches(s, largest);
  }

  lemma LongRunIs(s: seq<Event>, counts: seq<uint32>, asked: uint32, id: int, low: uint32)
    requires |s| == 3 && s[0] == Batch(counts, Grant(id, asked)) && s[1..] == Again(id + asked, COUNT_PER_RPC)
    requires counts != [] && asked == AskedFor(counts) && 0 < asked < Sum(counts) && id >= low
    requires PickLength(counts, 0, 0) == 0 && PickLength(counts, asked, 0) == |counts|
    ensures Fresh(Start, s, low) && AsAsked(Start, s)
    ensures Run(Start, s).declines == 0 && !PairwiseApart(Run(Start, s).served)
  {
    var h1, k := LongFirst(s[0], counts, asked, id, low);
    LongRest(s, h1, asked, id, low, k);
  }

  /** What follows after the long batch. */
  lemma LongRest(s: seq<Event>, h1: History, asked: uint32, id: int, low: uint32, k: nat)
    requires |s| == 3 && s[1..] == Again(id + asked, COUNT_PER_RPC) && id >= low && s[0].Batch?
    requires h1 == Next(Start, s[0]) && h1.blocks == [Range(id, id + asked)] && h1.declines == 0
    requires Asks(Start, s[0]) && s[0].answer == Grant(id, asked) && asked == Asked(Start, s[0])
    requires k < |h1.served| && h1.served[k].Has(id + asked)
    ensures Fresh(Start, s, low) && AsAsked(Start, s)
    ensures Run(Start, s).declines == 0 && !PairwiseApart(Run(Start, s).served)
  {
    var h := AgainReuses(h1, s, 1, id + asked, COUNT_PER_RPC, low, k);
    RunStep(Start, h1, s, 0, low);
    assert s[0..] == s;
  }

  /** MAIN RESULT: if every answer carries the count that was asked for, only the size of the requests decides: the
      allocator never hands out an ID twice, in any run with up to d declined answers, if and only if no request exceeds
      858821, and d is at most 1 or there is nothing that could be served twice. */
  lemma AskedRunsSafeIff(largest: uint32, low: uint32, d: nat)
    ensures (forall events {:trigger Run(Start, events)} ::
              FairAsAsked(events, largest, low) && Run(Start, events).declines <= d
              ==> PairwiseApart(Run(Start, events).served))
            <==> largest <= MAX_ASKED_COUNT && (d <= 1 || low < COUNT_PER_RPC || largest == 0)
  {
    if largest > MAX_ASKED_COUNT {
      LongRunReusesIds(largest, low, low);
      assert !PairwiseApart(Run(Start, LongRun(largest, low)).served);
    } else if d <= 1 || low < COUNT_PER_RPC || largest == 0 {
      forall events | FairAsAsked(events, largest, low) && Run(Start, events).declines <= d
        ensures PairwiseApart(Run(Start, events).served)
      {
        AskedRunIsSafe(events, largest, low, d);
      }
    } else {
      TwoDeclinesReuseIds(COUNT_PER_RPC, low);
      assert Batches(DeclinedRun(COUNT_PER_RPC), largest);
      assert !PairwiseApart(Run(Start, DeclinedRun(COUNT_PER_RPC)).served);
    }
  }

  lemma AskedRunIsSafe(events: seq<Event>, largest: uint32, low: uint32, d: nat)
    requires FairAsAsked(events, largest, low) && Run(Start, events).declines <= d && largest <= MAX_ASKED_COUNT
    requires d <= 1 || low < COUNT_PER_RPC || largest == 0
    ensures PairwiseApart(Run(Start, events).served)
  {
    if d > 1 && largest == 0 {
      NothingIsServed(Start, events);
      EmptyIsApart(Run(Start, events).served);
    } else {
      if d > 1 {
        DeclinesStay(Start, events, 0, 0, low);
      }
      AskedNeverWraps(Start, events, largest);
      RunsNeverReuseIds(events, low);
    }
  }
}
