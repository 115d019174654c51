/** The allocator over one fixed block of IDs: the reference for what the batching allocator does
    inside a cached block. */
module LocalAllocators {
  import opened Wrappers
  import opened IdRanges
  import opened IdAllocatorSpec

  datatype AllocResult = Allocated(range: Range) | NonPositiveCount | Exhausted

  /** One allocation from a block whose unused part is c. */
  function AllocFrom(c: Cache, count: uint32): (Cache, AllocResult) {
    if count <= 0 then (c, NonPositiveCount)
    else if c.idStart + count > c.idEnd then (c, Exhausted)
    else (Cache(c.idStart + count, c.idEnd), Allocated(Range(c.idStart, c.idStart + count)))
  }

  /** A sequence of allocations, each from what the ones before it left. */
  function AllocAll(c: Cache, counts: seq<uint32>): (r: (Cache, seq<AllocResult>))
    ensures |r.1| == |counts|
    decreases counts
  {
    if counts == [] then (c, [])
    else
      var (c1, first) := AllocFrom(c, counts[0]);
      var (c2, others) := AllocAll(c1, counts[1..]);
      (c2, [first] + others)
  }

  class LocalAllocator {
    var idStart: int
    var idEnd: int

    constructor (start: int, end: int)
      ensures Remaining() == Cache(start, end)
    {
      idStart, idEnd := start, end;
    }

    function Remaining(): Cache
      reads this
    {
      Cache(idStart, idEnd)
    }

    /** Either a range of exactly count fresh IDs from the front of the block, or an error that
        leaves the block as it was. */
    method Alloc(count: uint32) returns (r: AllocResult)
      modifies this`idStart
      ensures (Remaining(), r) == AllocFrom(old(Remaining()), count)
      ensures r.Allocated? <==> 0 < count <= old(idEnd) - old(idStart)
      ensures r.Allocated? ==> r.range.start == old(idStart) && r.range.end == idStart == old(idStart) + count
      ensures !r.Allocated? ==> idStart == old(idStart)
    {
      var cnt: int := count;
      if cnt <= 0 {
        return NonPositiveCount;
      }
      if idStart + cnt > idEnd {
        return Exhausted;
      }
      var start := idStart;
      idStart := idStart + cnt;
      return Allocated(Range(start, start + cnt));
    }
  }

  function AllAllocated(ranges: seq<Range>): (rs: seq<AllocResult>)
    ensures |rs| == |ranges|
  {
    seq(|ranges|, i requires 0 <= i < |ranges| => Allocated(ranges[i]))
  }

  /** What the one-block allocator answers where the batching allocator hands out a range: it refuses size 0. */
  function AnswersFor(counts: seq<uint32>, ranges: seq<Range>): (rs: seq<AllocResult>)
    requires |counts| == |ranges|
    ensures |rs| == |ranges|
    ensures forall i :: 0 <= i < |rs| ==> rs[i] == if counts[i] == 0 then NonPositiveCount else Allocated(ranges[i])
  {
    seq(|ranges|, i requires 0 <= i < |ranges| => if counts[i] == 0 then NonPositiveCount else Allocated(ranges[i]))
  }

  ghost predicate NoneEmpty(counts: seq<uint32>) {
    forall i :: 0 <= i < |counts| ==> counts[i] != 0
  }

  lemma AnswersAllocatedIff(counts: seq<uint32>, ranges: seq<Range>)
    requires |counts| == |ranges|
    ensures AnswersFor(counts, ranges) == AllAllocated(ranges) <==> NoneEmpty(counts)
  {
    if AnswersFor(counts, ranges) == AllAllocated(ranges) {
      forall i | 0 <= i < |counts|
        ensures counts[i] != 0
      {
        assert AnswersFor(counts, ranges)[i] == AllAllocated(ranges)[i];
      }
    }
  }

  /** One pass of the batching allocator against the one-block allocator that is asked for the same sizes one at a
      time: the same block is left, each range is the one that it allocates, except that it refuses size 0, and the
      pass stops at the first size it has no room for. So the two answer alike exactly if no served size is 0. The
      uint32 sums must not wrap, which HarmlessNoWrap gives for all batches of harmless sizes. */
  lemma ServePassRefinesLocal(c: Cache, counts: seq<uint32>)
    requires FitsWord(c) && NoWrap(counts, Available(c), 0)
    ensures var pass := ServePass(c, counts);
            var k := |pass.ranges|;
            var (left, answers) := AllocAll(c, counts[..k]);
            && left == pass.cache
            && answers == AnswersFor(counts[..k], pass.ranges)
            && (answers == AllAllocated(pass.ranges) <==> NoneEmpty(counts[..k]))
            && (k < |counts| ==> AllocFrom(pass.cache, counts[k]) == (pass.cache, Exhausted))
  {
    PassTakes(c, counts);
    var picked := counts[..|ServePass(c, counts).ranges|];
    AllocAllFits(c, picked);
    AnswersAllocatedIff(picked, Layout(c.idStart, picked));
  }

  /** The input on which they differ: the batching allocator serves a request for no IDs, the other refuses it. */
  lemma ZeroRequestIsServed(c: Cache)
    ensures ServePass(c, [0]) == Pass(c, [Range(c.idStart, c.idStart)])
    ensures AllocAll(c, [0]) == (c, [NonPositiveCount])
  {
    var counts: seq<uint32> := [0];
    assert counts[1..] == [] && counts[..1] == counts;
    assert PickLength(counts, Available(c), 0) == 1 + PickLength([], Available(c), 0);
    assert Sum(counts) == 0 + Sum([]);
    assert Layout(c.idStart, counts) == [Range(c.idStart, c.idStart)] + Layout(c.idStart, []);
    assert AllocAll(c, counts[1..]) == (c, []);
    var refused: seq<AllocResult> := [NonPositiveCount];
    assert AllocAll(c, counts) == (c, refused + []) && refused + [] == refused;
  }

  lemma {:induction false} AllocAllFits(c: Cache, counts: seq<uint32>)
    requires c.idStart + Sum(counts) <= c.idEnd
    ensures AllocAll(c, counts)
            == (Cache(c.idStart + Sum(counts), c.idEnd), AnswersFor(counts, Layout(c.idStart, counts)))
    decreases counts
  {
    if counts != [] {
      var c1 := Cache(c.idStart + counts[0], c.idEnd);
      var first := if counts[0] == 0 then NonPositiveCount else Allocated(Range(c.idStart, c1.idStart));
      AllocAllFits(c1, counts[1..]);
      assert AnswersFor(counts, Layout(c.idStart, counts))
          == [first] + AnswersFor(counts[1..], Layout(c1.idStart, counts[1..]));
    }
  }
}
