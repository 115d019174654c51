/** The level-zero compaction planner: which segments one round picks, and how forced rounds are
    planned until nothing is left. */
module LevelZeroViews {
  import opened Wrappers

  /** What the planner reads of a level-zero segment. */
  datatype SegmentView = SegmentView(id: int, deltalogCount: int, deltaSize: real, dmlTs: nat)

  /** The limits and thresholds of level-zero compaction. */
  datatype TriggerConfig = TriggerConfig(minSize: real, maxSize: real, minCount: int, maxCount: int)

  datatype View = View(segments: seq<SegmentView>, earliestGrowingTs: nat, triggerID: int)

  /** Why segments were picked, with the totals of the pick. */
  datatype Reason =
    | Forced(pickedSize: real, pickedCount: int)
    | CountReached(minCount: int, pickedSize: real, pickedCount: int)
    | SizeReached(minSize: real, pickedSize: real, pickedCount: int)

  function SumCount(segments: seq<SegmentView>): int {
    if segments == [] then 0 else SumCount(segments[..|segments|-1]) + segments[|segments|-1].deltalogCount
  }

  function SumSize(segments: seq<SegmentView>): real {
    if segments == [] then 0.0 else SumSize(segments[..|segments|-1]) + segments[|segments|-1].deltaSize
  }

  /** The totals of a group respect both limits. */
  ghost predicate Within(group: seq<SegmentView>, maxSize: real, maxCount: int) {
    SumCount(group) <= maxCount && SumSize(group) <= maxSize
  }

  /** A running total is still zero, in which case the limits are not looked at. */
  predicate ColdTotals(picked: seq<SegmentView>) {
    SumCount(picked) == 0 || SumSize(picked) == 0.0
  }

  /** The next segment is refused: both running totals are non-zero and it would break a limit. */
  predicate Refuses(picked: seq<SegmentView>, next: SegmentView, maxSize: real, maxCount: int) {
    !ColdTotals(picked)
    && (SumSize(picked) + next.deltaSize > maxSize || SumCount(picked) + next.deltalogCount > maxCount)
  }

  /** How many segments a round takes from the front, when the first n are taken already. */
  function PickFrom(segments: seq<SegmentView>, n: nat, maxSize: real, maxCount: int): (k: nat)
    requires n <= |segments|
    ensures n <= k <= |segments|
    decreases |segments| - n
  {
    if n == |segments| || Refuses(segments[..n], segments[n], maxSize, maxCount) then n
    else PickFrom(segments, n + 1, maxSize, maxCount)
  }

  function PickLength(segments: seq<SegmentView>, maxSize: real, maxCount: int): (k: nat)
    ensures k <= |segments|
  {
    PickFrom(segments, 0, maxSize, maxCount)
  }

  lemma SumsNext(segments: seq<SegmentView>, n: nat)
    requires n < |segments|
    ensures SumCount(segments[..n+1]) == SumCount(segments[..n]) + segments[n].deltalogCount
    ensures SumSize(segments[..n+1]) == SumSize(segments[..n]) + segments[n].deltaSize
  {
    assert segments[..n+1][..n] == segments[..n];
  }

  lemma {:induction false} SumsAppend(a: seq<SegmentView>, b: seq<SegmentView>)
    ensures SumCount(a + b) == SumCount(a) + SumCount(b)
    ensures SumSize(a + b) == SumSize(a) + SumSize(b)
  {
    if b == [] {
      assert a + b == a;
    } else {
      assert (a + b)[..|a + b|-1] == a + b[..|b|-1];
      SumsAppend(a, b[..|b|-1]);
    }
  }

  /** Takes segments from the front while the limits allow it. */
  method PickByMaxCountSize(segments: seq<SegmentView>, maxSize: real, maxCount: int)
    returns (picked: seq<SegmentView>, pickedSize: real, pickedCount: int)
    ensures picked == segments[..PickLength(segments, maxSize, maxCount)]
    ensures pickedSize == SumSize(picked) && pickedCount == SumCount(picked)
    ensures segments != [] ==> picked != []
  {
    var idx := 0;
    pickedSize, pickedCount := 0.0, 0;
    while idx < |segments|
      invariant idx <= |segments|
      invariant pickedSize == SumSize(segments[..idx]) && pickedCount == SumCount(segments[..idx])
      invariant PickLength(segments, maxSize, maxCount) == PickFrom(segments, idx, maxSize, maxCount)
    {
      var view := segments[idx];
      var targetCount := view.deltalogCount + pickedCount;
      var targetSize := view.deltaSize + pickedSize;
      if pickedCount != 0 && pickedSize != 0.0 && (targetSize > maxSize || targetCount > maxCount) {
        break;
      }
      SumsNext(segments, idx);
      pickedCount := targetCount;
      pickedSize := targetSize;
      idx := idx + 1;
    }
    picked := segments[..idx];
  }

  // ----- One round -----

  /** Every step of a pick was allowed, and the next one is not. */
  lemma {:induction false} PickFromSteps(segments: seq<SegmentView>, n: nat, maxSize: real, maxCount: int)
    requires n <= |segments|
    ensures var k := PickFrom(segments, n, maxSize, maxCount);
            && (forall i :: n <= i < k ==> !Refuses(segments[..i], segments[i], maxSize, maxCount))
            && (k < |segments| ==> Refuses(segments[..k], segments[k], maxSize, maxCount))
    decreases |segments| - n
  {
    if n == |segments| || Refuses(segments[..n], segments[n], maxSize, maxCount) {
    } else {
      PickFromSteps(segments, n + 1, maxSize, maxCount);
    }
  }

  /** Each segment a round picks after the first either kept both totals within the limits or joined
      while a total was zero; and a round that stops early stops because it must. */
  lemma PickedSegmentsFit(segments: seq<SegmentView>, maxSize: real, maxCount: int)
    ensures var k := PickLength(segments, maxSize, maxCount);
            && (segments != [] ==> k > 0)
            && (forall i :: 0 <= i < k ==> Within(segments[..i+1], maxSize, maxCount) || ColdTotals(segments[..i]))
            && (k < |segments| ==> !ColdTotals(segments[..k]) && !Within(segments[..k+1], maxSize, maxCount))
  {
    PickFromSteps(segments, 0, maxSize, maxCount);
    var k := PickLength(segments, maxSize, maxCount);
    forall i | 0 <= i < |segments|
      ensures SumCount(segments[..i+1]) == SumCount(segments[..i]) + segments[i].deltalogCount
      ensures SumSize(segments[..i+1]) == SumSize(segments[..i]) + segments[i].deltaSize
    {
      SumsNext(segments, i);
    }
  }

  ghost predicate NonNegative(segments: seq<SegmentView>) {
    forall i :: 0 <= i < |segments| ==> segments[i].deltalogCount >= 0 && segments[i].deltaSize >= 0.0
  }

  ghost predicate Positive(segments: seq<SegmentView>) {
    forall i :: 0 <= i < |segments| ==> segments[i].deltalogCount > 0 && segments[i].deltaSize > 0.0
  }

  /** How many segments it takes until both running totals are non-zero. */
  function WarmUp(segments: seq<SegmentView>, n: nat): (w: nat)
    requires n <= |segments|
    ensures n <= w <= |segments|
    decreases |segments| - n
  {
    if n == |segments| || !ColdTotals(segments[..n]) then n else WarmUp(segments, n + 1)
  }

  /** A group may be planned as one compaction: a single segment, or within both limits. */
  ghost predicate Admissible(group: seq<SegmentView>, maxSize: real, maxCount: int) {
    |group| == 1 || Within(group, maxSize, maxCount)
  }

  lemma {:induction false} SumsMonotone(segments: seq<SegmentView>, i: nat, j: nat)
    requires NonNegative(segments) && i <= j <= |segments|
    ensures 0 <= SumCount(segments[..i]) <= SumCount(segments[..j])
    ensures 0.0 <= SumSize(segments[..i]) <= SumSize(segments[..j])
    decreases j
  {
    if i < j {
      SumsMonotone(segments, i, j - 1);
      SumsNext(segments, j - 1);
    } else if j > 0 {
      SumsMonotone(segments, 0, j - 1);
      SumsNext(segments, j - 1);
    }
  }

  lemma {:induction false} WarmUpIsPicked(segments: seq<SegmentView>, n: nat, maxSize: real, maxCount: int)
    requires n <= |segments|
    ensures WarmUp(segments, n) <= PickFrom(segments, n, maxSize, maxCount)
    decreases |segments| - n
  {
    if n == |segments| || !ColdTotals(segments[..n]) {
    } else {
      WarmUpIsPicked(segments, n + 1, maxSize, maxCount);
    }
  }

  lemma {:induction false} WarmUpEnds(segments: seq<SegmentView>, n: nat)
    requires n <= |segments|
    ensures var w := WarmUp(segments, n);
            && (w < |segments| ==> !ColdTotals(segments[..w]))
            && (forall i :: n <= i < w ==> ColdTotals(segments[..i]))
    decreases |segments| - n
  {
    if n == |segments| || !ColdTotals(segments[..n]) {
    } else {
      WarmUpEnds(segments, n + 1);
    }
  }

  /** Exactly when a round stays within both limits, or is at least a single segment or within them: when its warm-up
      prefix is, which can be read off the segments before planning. */
  lemma PickAdmissibleIff(segments: seq<SegmentView>, maxSize: real, maxCount: int)
    requires NonNegative(segments) && segments != []
    ensures Admissible(segments[..PickLength(segments, maxSize, maxCount)], maxSize, maxCount)
            <==> Admissible(segments[..WarmUp(segments, 0)], maxSize, maxCount)
    ensures Within(segments[..PickLength(segments, maxSize, maxCount)], maxSize, maxCount)
            <==> Within(segments[..WarmUp(segments, 0)], maxSize, maxCount)
  {
    var k, w := PickLength(segments, maxSize, maxCount), WarmUp(segments, 0);
    WarmUpIsPicked(segments, 0, maxSize, maxCount);
    WarmUpEnds(segments, 0);
    PickedSegmentsFit(segments, maxSize, maxCount);
    if w < k {
      SumsMonotone(segments, w, k - 1);
      assert Within(segments[..k], maxSize, maxCount);
      SumsMonotone(segments, w, k);
    }
  }

  /** With positive counts and sizes the warm-up is one segment, so every round respects the maximum. */
  lemma PositivePickAdmissible(segments: seq<SegmentView>, maxSize: real, maxCount: int)
    requires Positive(segments) && segments != []
    ensures Admissible(segments[..PickLength(segments, maxSize, maxCount)], maxSize, maxCount)
  {
    SumsNext(segments, 0);
    assert WarmUp(segments, 0) == WarmUp(segments, 1) == 1;
    PickAdmissibleIff(segments, maxSize, maxCount);
  }

  /** A zero-sized first segment lets a round go over the count limit. */
  lemma ZeroSizedSegmentBreaksMaximum(maxCount: int)
    requires maxCount >= 1
    ensures var segments := [SegmentView(1, maxCount, 0.0, 0), SegmentView(2, 1, 1.0, 0)];
            && NonNegative(segments)
            && PickLength(segments, 1.0, maxCount) == 2
            && !Admissible(segments, 1.0, maxCount)
  {
    var segments := [SegmentView(1, maxCount, 0.0, 0), SegmentView(2, 1, 1.0, 0)];
    SumsNext(segments, 0);
    SumsNext(segments, 1);
    assert segments[..2] == segments;
    assert PickFrom(segments, 1, 1.0, maxCount) == PickFrom(segments, 2, 1.0, maxCount);
  }

  // ----- All rounds -----

  function Ids(segments: seq<SegmentView>): (ids: seq<int>)
    ensures |ids| == |segments|
    ensures forall i :: 0 <= i < |ids| ==> ids[i] == segments[i].id
  {
    seq(|segments|, i requires 0 <= i < |segments| => segments[i].id)
  }

  /** kept lists the segments at the indices at, from the front to the back. */
  ghost predicate TakenAt(at: seq<nat>, kept: seq<SegmentView>, segments: seq<SegmentView>) {
    && |at| == |kept|
    && (forall i, j :: 0 <= i < j < |at| ==> at[i] < at[j])
    && (forall i :: 0 <= i < |at| ==> at[i] < |segments| && kept[i] == segments[at[i]])
  }

  /** One more segment is taken in front of the others. */
  lemma TakenBehind(at: seq<nat>, kept: seq<SegmentView>, segments: seq<SegmentView>, n: nat) returns (r: seq<nat>)
    requires TakenAt(at, kept, segments) && n < |segments| && forall i :: 0 <= i < |at| ==> n < at[i]
    ensures TakenAt(r, [segments[n]] + kept, segments)
    ensures forall k :: k in r <==> k == n || k in at
  {
    r := [n] + at;
  }

  /** The segments whose ID is not among ids, in order. */
  function Without(segments: seq<SegmentView>, ids: seq<int>): (r: seq<SegmentView>)
    ensures |r| <= |segments|
  {
    if segments == [] then []
    else (if segments[0].id in ids then [] else [segments[0]]) + Without(segments[1..], ids)
  }

  /** What is left is exactly the segments whose ID is not among ids, each where it was among the others. */
  lemma {:induction false} WithoutTakes(segments: seq<SegmentView>, ids: seq<int>, n: nat) returns (at: seq<nat>)
    requires n <= |segments|
    ensures TakenAt(at, Without(segments[n..], ids), segments)
    ensures forall k :: k in at <==> n <= k < |segments| && segments[k].id !in ids
    decreases |segments| - n
  {
    at := [];
    if n < |segments| {
      at := WithoutTakes(segments, ids, n + 1);
      assert segments[n..][1..] == segments[n+1..];
      if segments[n].id !in ids {
        at := TakenBehind(at, Without(segments[n+1..], ids), segments, n);
      }
    }
  }

  lemma {:induction false} WithoutKeeps(segments: seq<SegmentView>, ids: seq<int>, s: SegmentView)
    ensures s in Without(segments, ids) <==> s in segments && s.id !in ids
  {
    if segments != [] {
      WithoutKeeps(segments[1..], ids, s);
    }
  }

  /** The rounds as they are planned: each one a pick, after which the picked IDs are filtered out. */
  function RoundsById(segments: seq<SegmentView>, maxSize: real, maxCount: int): seq<seq<SegmentView>>
    decreases |segments|
  {
    if segments == [] then []
    else
      var picked := segments[..PickLength(segments, maxSize, maxCount)];
      PickedSegmentsFit(segments, maxSize, maxCount);
      assert segments[0].id == Ids(picked)[0];
      [picked] + RoundsById(Without(segments, Ids(picked)), maxSize, maxCount)
  }

  lemma RoundsByIdStep(segments: seq<SegmentView>, maxSize: real, maxCount: int)
    requires segments != []
    ensures var picked := segments[..PickLength(segments, maxSize, maxCount)];
            && picked != []
            && |Without(segments, Ids(picked))| < |segments|
            && RoundsById(segments, maxSize, maxCount)
               == [picked] + RoundsById(Without(segments, Ids(picked)), maxSize, maxCount)
  {
    PickedSegmentsFit(segments, maxSize, maxCount);
    var picked := segments[..PickLength(segments, maxSize, maxCount)];
    assert segments[0].id == Ids(picked)[0];
  }

  /** The segments below the earliest growing position, in order. */
  function Valid(segments: seq<SegmentView>, earliestGrowingTs: nat): seq<SegmentView> {
    if segments == [] then []
    else (if segments[0].dmlTs < earliestGrowingTs then [segments[0]] else []) + Valid(segments[1..], earliestGrowingTs)
  }

  /** These are exactly the segments below it, each where it was among the others. */
  lemma {:induction false} ValidTakes(segments: seq<SegmentView>, ts: nat, n: nat) returns (at: seq<nat>)
    requires n <= |segments|
    ensures TakenAt(at, Valid(segments[n..], ts), segments)
    ensures forall k :: k in at <==> n <= k < |segments| && segments[k].dmlTs < ts
    decreases |segments| - n
  {
    at := [];
    if n < |segments| {
      at := ValidTakes(segments, ts, n + 1);
      assert segments[n..][1..] == segments[n+1..];
      if segments[n].dmlTs < ts {
        at := TakenBehind(at, Valid(segments[n+1..], ts), segments, n);
      }
    }
  }

  /** The segments of each view. */
  function SegmentsOf(views: seq<View>): (groups: seq<seq<SegmentView>>)
    ensures |groups| == |views| && forall i :: 0 <= i < |views| ==> groups[i] == views[i].segments
  {
    seq(|views|, i requires 0 <= i < |views| => views[i].segments)
  }

  /** The views so far hold the first rounds, and those of what remains are the others. */
  ghost predicate Planned(v: View, config: TriggerConfig, views: seq<View>, remaining: seq<SegmentView>) {
    && (forall i :: 0 <= i < |views| ==>
          views[i].earliestGrowingTs == v.earliestGrowingTs && views[i].triggerID == v.triggerID)
    && SegmentsOf(views) + RoundsById(remaining, config.maxSize, config.maxCount)
       == RoundsById(Valid(v.segments, v.earliestGrowingTs), config.maxSize, config.maxCount)
  }

  lemma Started(v: View, config: TriggerConfig)
    ensures Planned(v, config, [], Valid(v.segments, v.earliestGrowingTs))
  {
    var all := RoundsById(Valid(v.segments, v.earliestGrowingTs), config.maxSize, config.maxCount);
    assert SegmentsOf([]) + all == all;
  }

  lemma AllPlanned(v: View, config: TriggerConfig, views: seq<View>)
    requires Planned(v, config, views, [])
    ensures var rounds := RoundsById(Valid(v.segments, v.earliestGrowingTs), config.maxSize, config.maxCount);
            && |views| == |rounds|
            && (forall i :: 0 <= i < |views| ==> views[i] == View(rounds[i], v.earliestGrowingTs, v.triggerID))
    ensures DistinctIds(v.segments) ==>
              exists at: seq<nat> ::
                && TakenAt(at, Concat(SegmentsOf(views)), v.segments)
                && forall k :: 0 <= k < |v.segments| ==> (k in at <==> v.segments[k].dmlTs < v.earliestGrowingTs)
  {
    assert SegmentsOf(views) + [] == SegmentsOf(views);
    if DistinctIds(v.segments) {
      var at := ValidRounds(v, config);
    }
  }

  /** The reason gives the totals of the last view. */
  ghost predicate IsLastReason(views: seq<View>, reason: Option<Reason>) {
    reason == if views == [] then None
              else var last := views[|views|-1].segments; Some(Forced(SumSize(last), SumCount(last)))
  }

  lemma RoundNext(v: View, views: seq<View>, view: View, remaining: seq<SegmentView>, config: TriggerConfig)
    requires Planned(v, config, views, remaining) && remaining != []
    requires view == View(remaining[..PickLength(remaining, config.maxSize, config.maxCount)],
                          v.earliestGrowingTs, v.triggerID)
    ensures |Without(remaining, Ids(view.segments))| < |remaining|
    ensures Planned(v, config, views + [view], Without(remaining, Ids(view.segments)))
  {
    RoundsByIdStep(remaining, config.maxSize, config.maxCount);
    assert SegmentsOf(views + [view]) == SegmentsOf(views) + [view.segments];
    Associative(SegmentsOf(views), [view.segments],
                RoundsById(Without(remaining, Ids(view.segments)), config.maxSize, config.maxCount));
  }

  /** Plans rounds until no valid segment is left, and reports the last round's reason. The loop ends: every round picks
      a segment. With distinct IDs the views hold exactly the valid segments, each once, in their order. */
  method ForceTriggerAll(v: View, config: TriggerConfig) returns (views: seq<View>, lastReason: Option<Reason>)
    ensures var rounds := RoundsById(Valid(v.segments, v.earliestGrowingTs), config.maxSize, config.maxCount);
            && |views| == |rounds|
            && (forall i :: 0 <= i < |views| ==> views[i] == View(rounds[i], v.earliestGrowingTs, v.triggerID))
    ensures lastReason == if views == [] then None
                          else var last := views[|views|-1].segments; Some(Forced(SumSize(last), SumCount(last)))
    ensures DistinctIds(v.segments) ==>
              exists at: seq<nat> ::
                && TakenAt(at, Concat(SegmentsOf(views)), v.segments)
                && forall k :: 0 <= k < |v.segments| ==> (k in at <==> v.segments[k].dmlTs < v.earliestGrowingTs)
  {
    var remaining := Valid(v.segments, v.earliestGrowingTs);
    views, lastReason := [], None;
    Started(v, config);
    while |remaining| > 0
      invariant Planned(v, config, views, remaining) && IsLastReason(views, lastReason)
      decreases |remaining|
    {
      var target, size, count := PickByMaxCountSize(remaining, config.maxSize, config.maxCount);
      if |target| == 0 {
        break;
      }
      var roundView := View(target, v.earliestGrowingTs, v.triggerID);
      RoundNext(v, views, roundView, remaining, config);
      views, lastReason := views + [roundView], Some(Forced(size, count));
      remaining := Without(remaining, Ids(target));
    }
    AllPlanned(v, config, views);
  }

  /** With distinct IDs the rounds together are the valid segments, each where it was among all segments. */
  lemma ValidRounds(v: View, config: TriggerConfig) returns (at: seq<nat>)
    requires DistinctIds(v.segments)
    ensures var rounds := RoundsById(Valid(v.segments, v.earliestGrowingTs), config.maxSize, config.maxCount);
            TakenAt(at, Concat(rounds), v.segments)
    ensures forall k :: 0 <= k < |v.segments| ==> (k in at <==> v.segments[k].dmlTs < v.earliestGrowingTs)
  {
    at := ValidTakes(v.segments, v.earliestGrowingTs, 0);
    assert v.segments[0..] == v.segments;
    var valid := Valid(v.segments, v.earliestGrowingTs);
    assert TakenAt(at, valid, v.segments);
    RoundsPartition(valid, config.maxSize, config.maxCount);
  }

  /** The rounds that simply cut the list behind each pick. */
  function Rounds(segments: seq<SegmentView>, maxSize: real, maxCount: int): seq<seq<SegmentView>>
    decreases |segments|
  {
    if segments == [] then []
    else
      PickedSegmentsFit(segments, maxSize, maxCount);
      var k := PickLength(segments, maxSize, maxCount);
      [segments[..k]] + Rounds(segments[k..], maxSize, maxCount)
  }

  ghost predicate DistinctIds(segments: seq<SegmentView>) {
    forall i, j :: 0 <= i < j < |segments| ==> segments[i].id != segments[j].id
  }

  function Concat(groups: seq<seq<SegmentView>>): seq<SegmentView> {
    if groups == [] then [] else groups[0] + Concat(groups[1..])
  }

  lemma {:induction false} WithoutNothing(segments: seq<SegmentView>, ids: seq<int>)
    requires forall s :: s in segments ==> s.id !in ids
    ensures Without(segments, ids) == segments
  {
    if segments != [] {
      WithoutNothing(segments[1..], ids);
    }
  }

  lemma {:induction false} WithoutPrefix(prefix: seq<SegmentView>, segments: seq<SegmentView>, ids: seq<int>)
    requires forall s :: s in prefix ==> s.id in ids
    requires forall s :: s in segments ==> s.id !in ids
    ensures Without(prefix + segments, ids) == segments
  {
    if prefix == [] {
      assert prefix + segments == segments;
      WithoutNothing(segments, ids);
    } else {
      assert (prefix + segments)[1..] == prefix[1..] + segments;
      WithoutPrefix(prefix[1..], segments, ids);
    }
  }

  /** With distinct IDs, filtering by ID cuts the list behind the pick. */
  lemma {:induction false} DistinctRounds(segments: seq<SegmentView>, maxSize: real, maxCount: int)
    requires DistinctIds(segments)
    ensures RoundsById(segments, maxSize, maxCount) == Rounds(segments, maxSize, maxCount)
    decreases |segments|
  {
    if segments != [] {
      PickedSegmentsFit(segments, maxSize, maxCount);
      var k := PickLength(segments, maxSize, maxCount);
      var picked, rest := segments[..k], segments[k..];
      forall s | s in picked
        ensures s.id in Ids(picked)
      {
        var i :| 0 <= i < k && picked[i] == s;
        assert Ids(picked)[i] == s.id;
      }
      WithoutPrefix(picked, rest, Ids(picked));
      assert picked + rest == segments;
      DistinctRounds(rest, maxSize, maxCount);
    }
  }

  lemma RoundsStep(segments: seq<SegmentView>, maxSize: real, maxCount: int) returns (k: nat)
    requires segments != []
    ensures 0 < k <= |segments| && k == PickLength(segments, maxSize, maxCount)
    ensures Rounds(segments, maxSize, maxCount) == [segments[..k]] + Rounds(segments[k..], maxSize, maxCount)
  {
    PickedSegmentsFit(segments, maxSize, maxCount);
    k := PickLength(segments, maxSize, maxCount);
  }

  lemma ConcatCons(group: seq<SegmentView>, groups: seq<seq<SegmentView>>)
    ensures Concat([group] + groups) == group + Concat(groups)
  {
    assert ([group] + groups)[1..] == groups;
  }

  lemma {:induction false} CutsPartition(segments: seq<SegmentView>, maxSize: real, maxCount: int)
    ensures var rounds := Rounds(segments, maxSize, maxCount);
            Concat(rounds) == segments && forall i :: 0 <= i < |rounds| ==> rounds[i] != []
    decreases |segments|
  {
    if segments != [] {
      var k := RoundsStep(segments, maxSize, maxCount);
      CutsPartition(segments[k..], maxSize, maxCount);
      ConcatCons(segments[..k], Rounds(segments[k..], maxSize, maxCount));
    }
  }

  /** With distinct IDs the rounds are exactly the valid segments, in order, cut into non-empty groups. */
  lemma RoundsPartition(segments: seq<SegmentView>, maxSize: real, maxCount: int)
    requires DistinctIds(segments)
    ensures var rounds := RoundsById(segments, maxSize, maxCount);
            Concat(rounds) == segments && forall i :: 0 <= i < |rounds| ==> rounds[i] != []
  {
    DistinctRounds(segments, maxSize, maxCount);
    CutsPartition(segments, maxSize, maxCount);
  }

  /** Whatever the IDs, no valid ID is left out of the plan. */
  lemma {:induction false} RoundsCoverIds(segments: seq<SegmentView>, maxSize: real, maxCount: int, s: SegmentView)
    requires s in segments
    ensures exists r :: r in RoundsById(segments, maxSize, maxCount) && s.id in Ids(r)
    decreases |segments|
  {
    PickedSegmentsFit(segments, maxSize, maxCount);
    var picked := segments[..PickLength(segments, maxSize, maxCount)];
    var rounds := RoundsById(segments, maxSize, maxCount);
    if s.id in Ids(picked) {
      assert rounds[0] == picked;
    } else {
      assert segments[0].id == Ids(picked)[0];
      var others := Without(segments, Ids(picked));
      WithoutKeeps(segments, Ids(picked), s);
      RoundsCoverIds(others, maxSize, maxCount, s);
      var r :| r in RoundsById(others, maxSize, maxCount) && s.id in Ids(r);
      assert rounds[1..] == RoundsById(others, maxSize, maxCount);
      assert r in rounds;
    }
  }

  // ----- Optimality -----

  /** A way to compact all segments: consecutive non-empty groups, each a single one or within the limits. */
  ghost predicate IsSplit(groups: seq<seq<SegmentView>>, segments: seq<SegmentView>, maxSize: real, maxCount: int) {
    && Concat(groups) == segments
    && forall i :: 0 <= i < |groups| ==> groups[i] != [] && Admissible(groups[i], maxSize, maxCount)
  }

  lemma {:induction false} PickReaches(segments: seq<SegmentView>, n: nat, m: nat, maxSize: real, maxCount: int)
    requires NonNegative(segments) && n <= m <= |segments|
    requires m <= 1 || Within(segments[..m], maxSize, maxCount)
    ensures PickFrom(segments, n, maxSize, maxCount) >= m
    decreases m - n
  {
    if n < m {
      SumsNext(segments, n);
      SumsMonotone(segments, n + 1, m);
      PickReaches(segments, n + 1, m, maxSize, maxCount);
    }
  }

  lemma SuffixWithin(group: seq<SegmentView>, d: nat, maxSize: real, maxCount: int)
    requires NonNegative(group) && d <= |group|
    requires Within(group, maxSize, maxCount)
    ensures Within(group[d..], maxSize, maxCount)
  {
    assert group == group[..d] + group[d..];
    SumsAppend(group[..d], group[d..]);
    SumsMonotone(group, 0, d);
  }

  /** The same, group by group. */
  ghost predicate SplitsFrom(segments: seq<SegmentView>, groups: seq<seq<SegmentView>>, maxSize: real, maxCount: int)
    decreases |groups|
  {
    if groups == [] then segments == []
    else
      var g := |groups[0]|;
      && g <= |segments| && Admissible(segments[..g], maxSize, maxCount)
      && SplitsFrom(segments[g..], groups[1..], maxSize, maxCount)
  }

  lemma {:induction false} SplitIsFrom(segments: seq<SegmentView>, groups: seq<seq<SegmentView>>,
                                       maxSize: real, maxCount: int)
    requires IsSplit(groups, segments, maxSize, maxCount)
    ensures SplitsFrom(segments, groups, maxSize, maxCount)
    decreases |groups|
  {
    if groups != [] {
      var g := |groups[0]|;
      assert segments == groups[0] + Concat(groups[1..]);
      assert segments[..g] == groups[0] && segments[g..] == Concat(groups[1..]);
      SplitIsFrom(segments[g..], groups[1..], maxSize, maxCount);
    }
  }

  /** Starting inside an admissible group of g segments, one pick reaches at least its end. */
  lemma PickPassesGroup(segments: seq<SegmentView>, d: nat, g: nat, maxSize: real, maxCount: int) returns (k: nat)
    requires NonNegative(segments) && d < g <= |segments|
    requires Admissible(segments[..g], maxSize, maxCount)
    ensures g <= d + k <= |segments|
    ensures |Rounds(segments[d..], maxSize, maxCount)| == 1 + |Rounds(segments[d..][k..], maxSize, maxCount)|
  {
    k := RoundsStep(segments[d..], maxSize, maxCount);
    var group, t := segments[..g], segments[d..];
    assert t[..g-d] == group[d..];
    if g > 1 {
      SuffixWithin(group, d, maxSize, maxCount);
    }
    PickReaches(t, 0, g - d, maxSize, maxCount);
  }

  /** So the rounds from there are one more than those from some later starting point behind the group. */
  lemma RoundAcross(segments: seq<SegmentView>, d: nat, g: nat, maxSize: real, maxCount: int) returns (e: nat)
    requires NonNegative(segments) && d < g <= |segments|
    requires Admissible(segments[..g], maxSize, maxCount)
    ensures g + e <= |segments|
    ensures |Rounds(segments[d..], maxSize, maxCount)| == 1 + |Rounds(segments[g..][e..], maxSize, maxCount)|
  {
    var k := PickPassesGroup(segments, d, g, maxSize, maxCount);
    e := d + k - g;
    DropTwice(segments, d, k);
    DropTwice(segments, g, e);
  }

  lemma DropTwice(segments: seq<SegmentView>, i: nat, j: nat)
    requires i + j <= |segments|
    ensures segments[i..][j..] == segments[i + j..]
  {
  }

  lemma RestNonNegative(segments: seq<SegmentView>, i: nat)
    requires NonNegative(segments) && i <= |segments|
    ensures NonNegative(segments[i..])
  {
  }

  /** From any later starting point the greedy rounds need no more groups than any split does. */
  lemma {:induction false} GreedyStaysAhead(segments: seq<SegmentView>, d: nat, groups: seq<seq<SegmentView>>,
                                            maxSize: real, maxCount: int)
    requires NonNegative(segments) && d <= |segments|
    requires SplitsFrom(segments, groups, maxSize, maxCount)
    ensures |Rounds(segments[d..], maxSize, maxCount)| <= |groups|
    decreases |groups|
  {
    if d < |segments| {
      var g := |groups[0]|;
      var e := d - g;
      RestNonNegative(segments, g);
      if d < g {
        e := RoundAcross(segments, d, g, maxSize, maxCount);
      } else {
        DropTwice(segments, g, e);
      }
      GreedyStaysAhead(segments[g..], e, groups[1..], maxSize, maxCount);
    }
  }

  /** MAIN RESULT: no split of the segments into admissible consecutive groups uses fewer groups. */
  lemma RoundsOptimal(segments: seq<SegmentView>, groups: seq<seq<SegmentView>>, maxSize: real, maxCount: int)
    requires NonNegative(segments) && DistinctIds(segments)
    requires IsSplit(groups, segments, maxSize, maxCount)
    ensures |RoundsById(segments, maxSize, maxCount)| <= |groups|
  {
    DistinctRounds(segments, maxSize, maxCount);
    assert segments[0..] == segments;
    SplitIsFrom(segments, groups, maxSize, maxCount);
    GreedyStaysAhead(segments, 0, groups, maxSize, maxCount);
  }

  lemma {:induction false} CutsAreASplit(segments: seq<SegmentView>, maxSize: real, maxCount: int)
    requires Positive(segments)
    ensures forall i :: 0 <= i < |Rounds(segments, maxSize, maxCount)| ==>
              Admissible(Rounds(segments, maxSize, maxCount)[i], maxSize, maxCount)
    decreases |segments|
  {
    if segments != [] {
      PositivePickAdmissible(segments, maxSize, maxCount);
      PickedSegmentsFit(segments, maxSize, maxCount);
      CutsAreASplit(segments[PickLength(segments, maxSize, maxCount)..], maxSize, maxCount);
    }
  }

  /** With positive counts and sizes the rounds are such a split themselves, hence a smallest one. */
  lemma RoundsAreASplit(segments: seq<SegmentView>, maxSize: real, maxCount: int)
    requires Positive(segments) && DistinctIds(segments)
    ensures IsSplit(RoundsById(segments, maxSize, maxCount), segments, maxSize, maxCount)
  {
    RoundsPartition(segments, maxSize, maxCount);
    DistinctRounds(segments, maxSize, maxCount);
    CutsAreASplit(segments, maxSize, maxCount);
  }

  lemma FirstTwoRoundsOverflow(segments: seq<SegmentView>, k: nat, k': nat, maxSize: real, maxCount: int)
    requires NonNegative(segments) && segments != []
    requires k == PickLength(segments, maxSize, maxCount) < |segments|
    requires k' == PickLength(segments[k..], maxSize, maxCount)
    ensures !Within(segments[..k] + segments[k..][..k'], maxSize, maxCount)
  {
    PickedSegmentsFit(segments, maxSize, maxCount);
    PickedSegmentsFit(segments[k..], maxSize, maxCount);
    assert segments[..k] + segments[k..][..k'] == segments[..k + k'];
    SumsMonotone(segments, k + 1, k + k');
  }

  lemma {:induction false} ConsecutiveCutsOverflow(segments: seq<SegmentView>, maxSize: real, maxCount: int, i: nat)
    requires NonNegative(segments)
    requires i + 1 < |Rounds(segments, maxSize, maxCount)|
    ensures var rounds := Rounds(segments, maxSize, maxCount);
            !Within(rounds[i] + rounds[i+1], maxSize, maxCount)
    decreases |segments|
  {
    PickedSegmentsFit(segments, maxSize, maxCount);
    var k := PickLength(segments, maxSize, maxCount);
    var rest := segments[k..];
    if i == 0 {
      FirstTwoRoundsOverflow(segments, k, PickLength(rest, maxSize, maxCount), maxSize, maxCount);
    } else {
      ConsecutiveCutsOverflow(rest, maxSize, maxCount, i - 1);
    }
  }

  /** No two consecutive rounds could have been one: together they break a limit. */
  lemma ConsecutiveRoundsOverflow(segments: seq<SegmentView>, maxSize: real, maxCount: int, i: nat)
    requires NonNegative(segments) && DistinctIds(segments)
    requires i + 1 < |RoundsById(segments, maxSize, maxCount)|
    ensures var rounds := RoundsById(segments, maxSize, maxCount);
            !Within(rounds[i] + rounds[i+1], maxSize, maxCount)
  {
    DistinctRounds(segments, maxSize, maxCount);
    ConsecutiveCutsOverflow(segments, maxSize, maxCount, i);
  }

  // ----- The other triggers and view equality -----

  /** One forced round: the first of those ForceTriggerAll plans, or none when no segment is valid. */
  method ForceTrigger(v: View, config: TriggerConfig) returns (r: Option<(View, Reason)>)
    ensures var rounds := RoundsById(Valid(v.segments, v.earliestGrowingTs), config.maxSize, config.maxCount);
            r == if rounds == [] then None
                 else Some((View(rounds[0], v.earliestGrowingTs, v.triggerID),
                            Forced(SumSize(rounds[0]), SumCount(rounds[0]))))
  {
    var valid := Valid(v.segments, v.earliestGrowingTs);
    var target, size, count := PickByMaxCountSize(valid, config.maxSize, config.maxCount);
    if |target| > 0 {
      return Some((View(target, v.earliestGrowingTs, v.triggerID), Forced(size, count)));
    }
    return None;
  }

  /** The unforced trigger fires exactly when there is a valid segment and the valid ones reach the minimum
      count or the minimum size; it then plans the same first round, and names the count before the size. */
  method Trigger(v: View, config: TriggerConfig) returns (r: Option<(View, Reason)>)
    ensures var valid := Valid(v.segments, v.earliestGrowingTs);
            var rounds := RoundsById(valid, config.maxSize, config.maxCount);
            r == if rounds == [] then None
                 else if SumCount(valid) >= config.minCount then
                   Some((View(rounds[0], v.earliestGrowingTs, v.triggerID),
                         CountReached(config.minCount, SumSize(rounds[0]), SumCount(rounds[0]))))
                 else if SumSize(valid) >= config.minSize then
                   Some((View(rounds[0], v.earliestGrowingTs, v.triggerID),
                         SizeReached(config.minSize, SumSize(rounds[0]), SumCount(rounds[0]))))
                 else None
  {
    var valid := Valid(v.segments, v.earliestGrowingTs);
    var picked, size, count := [], 0.0, 0;
    var reason := Forced(0.0, 0);
    if SumCount(valid) >= config.minCount {
      picked, size, count := PickByMaxCountSize(valid, config.maxSize, config.maxCount);
      reason := CountReached(config.minCount, size, count);
    } else if SumSize(valid) >= config.minSize {
      picked, size, count := PickByMaxCountSize(valid, config.maxSize, config.maxCount);
      reason := SizeReached(config.minSize, size, count);
    }
    if |picked| > 0 {
      return Some((View(picked, v.earliestGrowingTs, v.triggerID), reason));
    }
    return None;
  }

  /** Same number of segments, and no ID on one side only. */
  predicate Equal(a: seq<SegmentView>, b: seq<SegmentView>) {
    && |a| == |b|
    && (forall id :: id in Ids(b) ==> id in Ids(a))
    && (forall id :: id in Ids(a) ==> id in Ids(b))
  }

  /** For a view whose IDs are distinct, equality means the same IDs in some order. */
  lemma EqualIffPermutation(a: seq<SegmentView>, b: seq<SegmentView>)
    requires DistinctIds(a)
    ensures Equal(a, b) <==> multiset(Ids(a)) == multiset(Ids(b))
  {
    if Equal(a, b) {
      DistinctCard(Ids(a));
      assert (set id | id in Ids(a)) == (set id | id in Ids(b));
      DistinctMultiset(Ids(a));
      DistinctMultiset(Ids(b));
    }
    if multiset(Ids(a)) == multiset(Ids(b)) {
      PermutationIsEqual(a, b);
    }
  }

  ghost predicate OneId(segments: seq<SegmentView>) {
    forall i, j :: 0 <= i < j < |segments| ==> segments[i].id == segments[j].id
  }

  /** Exactly the views for which equality always means the same IDs in some order: their IDs are distinct, or all the
      same. */
  lemma EqualMeansPermutationIff(a: seq<SegmentView>)
    ensures (forall b {:trigger Equal(a, b)} :: Equal(a, b) <==> multiset(Ids(a)) == multiset(Ids(b)))
            <==> DistinctIds(a) || OneId(a)
  {
    if DistinctIds(a) || OneId(a) {
      forall b
        ensures Equal(a, b) <==> multiset(Ids(a)) == multiset(Ids(b))
      {
        if DistinctIds(a) {
          EqualIffPermutation(a, b);
        } else {
          EqualOneId(a, b);
        }
      }
    } else {
      var b := OtherMultiplicity(a);
      assert !(Equal(a, b) <==> multiset(Ids(a)) == multiset(Ids(b)));
    }
  }

  lemma EqualOneId(a: seq<SegmentView>, b: seq<SegmentView>)
    requires OneId(a)
    ensures Equal(a, b) <==> multiset(Ids(a)) == multiset(Ids(b))
  {
    if Equal(a, b) {
      forall i | 0 <= i < |a|
        ensures Ids(a)[i] == Ids(b)[i]
      {
        assert Ids(b)[i] in Ids(a);
      }
      assert Ids(a) == Ids(b);
    }
    if multiset(Ids(a)) == multiset(Ids(b)) {
      PermutationIsEqual(a, b);
    }
  }

  lemma PermutationIsEqual(a: seq<SegmentView>, b: seq<SegmentView>)
    requires multiset(Ids(a)) == multiset(Ids(b))
    ensures Equal(a, b)
  {
    assert |Ids(a)| == |multiset(Ids(a))| == |multiset(Ids(b))|;
    assert forall id :: id in Ids(a) <==> id in multiset(Ids(a));
    assert forall id :: id in Ids(b) <==> id in multiset(Ids(b));
  }

  /** Replacing one of two segments with the same ID by a copy of another one. */
  lemma OtherMultiplicity(a: seq<SegmentView>) returns (b: seq<SegmentView>)
    requires !DistinctIds(a) && !OneId(a)
    ensures Equal(a, b) && multiset(Ids(a)) != multiset(Ids(b))
  {
    var i, j :| 0 <= i < j < |a| && a[i].id == a[j].id;
    var k :| 0 <= k < |a| && a[k].id != a[i].id;
    b := a[i := a[k]];
    var ids := Ids(a);
    assert Ids(b) == ids[i := ids[k]];
    forall id | id in Ids(a)
      ensures id in Ids(b)
    {
      var m :| 0 <= m < |a| && ids[m] == id;
      assert Ids(b)[if m == i then j else m] == id;
    }
    assert forall m :: 0 <= m < |a| ==> Ids(b)[m] in ids;
    assert multiset(ids[i := ids[k]])[ids[i]] == multiset(ids)[ids[i]] - 1;
  }

  lemma {:induction false} DistinctCard(ids: seq<int>)
    requires forall i, j :: 0 <= i < j < |ids| ==> ids[i] != ids[j]
    ensures |set id | id in ids| == |ids|
  {
    if ids != [] {
      var front := ids[..|ids|-1];
      DistinctCard(front);
      assert (set id | id in ids) == (set id | id in front) + {ids[|ids|-1]};
    }
  }

  /** A list of IDs as long as its set of IDs holds each of them once. */
  lemma {:induction false} DistinctMultiset(ids: seq<int>)
    ensures |set id | id in ids| <= |ids|
    ensures |set id | id in ids| == |ids| ==> multiset(ids) == multiset(set id | id in ids)
  {
    if ids != [] {
      var front, last := ids[..|ids|-1], ids[|ids|-1];
      DistinctMultiset(front);
      var all, some := set id | id in ids, set id | id in front;
      assert all == some + {last};
      assert ids == front + [last];
      if |all| == |ids| {
        assert last !in some;
        assert multiset(all) == multiset(some) + multiset{last};
      }
    }
  }

  /** With repeated IDs it does not. */
  lemma EqualIgnoresMultiplicity(a: SegmentView, b: SegmentView)
    requires a.id != b.id
    ensures Equal([a, a, b], [a, b, b]) && multiset(Ids([a, a, b])) != multiset(Ids([a, b, b]))
  {
    assert Ids([a, a, b]) == [a.id, a.id, b.id] && Ids([a, b, b]) == [a.id, b.id, b.id];
    assert multiset([a.id, a.id, b.id])[a.id] == 2 && multiset([a.id, b.id, b.id])[a.id] == 1;
  }
}
