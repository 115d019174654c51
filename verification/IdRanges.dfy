/** Fixed-width counts, half-open ID ranges and the way a run of requests is laid out in one block. */
module IdRanges {
  import opened Wrappers

  const TWO_TO_32: int := 0x1_0000_0000

  /** Go's conversion to uint32: the low 32 bits, for negative arguments too. */
  function WrapU32(x: int): uint32 {
    x % TWO_TO_32
  }

  function Sum(counts: seq<uint32>): nat {
    if counts == [] then 0 else counts[0] + Sum(counts[1..])
  }

  /** A half-open range of IDs; empty when end <= start. */
  datatype Range = Range(start: int, end: int) {
    ghost predicate Has(id: int) {
      start <= id < end
    }

    ghost predicate Within(block: Range) {
      block.start <= start && end <= block.end
    }
  }

  /** No ID belongs to both ranges. */
  ghost predicate Apart(a: Range, b: Range) {
    forall id :: !(a.Has(id) && b.Has(id))
  }

  ghost predicate PairwiseApart(rs: seq<Range>) {
    forall i, j :: 0 <= i < j < |rs| ==> Apart(rs[i], rs[j])
  }

  /** The ranges that back-to-back requests of the given sizes receive from `start` on. */
  function Layout(start: int, counts: seq<uint32>): (rs: seq<Range>)
    ensures |rs| == |counts|
    decreases counts
  {
    if counts == [] then []
    else [Range(start, start + counts[0])] + Layout(start + counts[0], counts[1..])
  }

  lemma {:induction false} SumAppend(a: seq<uint32>, b: seq<uint32>)
    ensures Sum(a + b) == Sum(a) + Sum(b)
  {
    if a == [] {
      assert a + b == b;
    } else {
      assert (a + b)[1..] == a[1..] + b;
      SumAppend(a[1..], b);
    }
  }

  lemma SumTakeNext(counts: seq<uint32>, k: nat)
    requires k < |counts|
    ensures Sum(counts[..k+1]) == Sum(counts[..k]) + counts[k]
  {
    assert counts[..k+1] == counts[..k] + [counts[k]];
    SumAppend(counts[..k], [counts[k]]);
  }

  lemma {:induction false} SumBound(counts: seq<uint32>, c: nat)
    requires forall i :: 0 <= i < |counts| ==> counts[i] <= c
    ensures Sum(counts) <= |counts| * c
  {
    if counts != [] {
      SumBound(counts[1..], c);
      assert |counts| * c == |counts[1..]| * c + c;
    }
  }

  lemma SumPrefix(counts: seq<uint32>, k: nat)
    requires k <= |counts|
    ensures Sum(counts[..k]) <= Sum(counts)
  {
    assert counts == counts[..k] + counts[k..];
    SumAppend(counts[..k], counts[k..]);
  }

  lemma {:induction false} LayoutAppend(start: int, a: seq<uint32>, b: seq<uint32>)
    ensures Layout(start, a + b) == Layout(start, a) + Layout(start + Sum(a), b)
    decreases a
  {
    if a == [] {
      assert a + b == b;
    } else {
      assert (a + b)[1..] == a[1..] + b;
      LayoutAppend(start + a[0], a[1..], b);
    }
  }

  /** Every range of a layout has its request's size, stays inside the block that the sizes add up
      to, and ends before any later one starts. */
  lemma {:induction false} LayoutShape(start: int, counts: seq<uint32>, i: nat)
    requires i < |counts|
    ensures Layout(start, counts)[i] == Range(start + Sum(counts[..i]), start + Sum(counts[..i]) + counts[i])
    ensures Layout(start, counts)[i].Within(Range(start, start + Sum(counts)))
    ensures forall j :: i < j < |counts| ==> Layout(start, counts)[i].end <= Layout(start, counts)[j].start
  {
    var a, b := counts[..i], counts[i..];
    assert counts == a + b && b[1..] == counts[i+1..];
    LayoutAppend(start, a, b);
    SumAppend(a, b);
    assert Layout(start + Sum(a), b)
        == [Range(start + Sum(a), start + Sum(a) + b[0])] + Layout(start + Sum(a) + b[0], b[1..]);
    forall j | i < j < |counts|
      ensures Layout(start, counts)[i].end <= Layout(start, counts)[j].start
    {
      LayoutStart(start + Sum(a) + b[0], b[1..], j - i - 1);
    }
  }

  lemma {:induction false} LayoutStart(start: int, counts: seq<uint32>, i: nat)
    requires i < |counts|
    ensures start <= Layout(start, counts)[i].start
    decreases counts
  {
    if i > 0 {
      LayoutStart(start + counts[0], counts[1..], i - 1);
    }
  }
}
