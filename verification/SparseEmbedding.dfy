/** Sparse embeddings: positions with values, sorted in tandem, and their little-endian byte form. Values are
    their 32-bit patterns. */
module SparseEmbeddings {
  import opened Wrappers

  type byte = x: int | 0 <= x < 256

  // ----- Bytes -----

  /** The four bytes of a word, lowest first. */
  function PutUint32(x: uint32): (bs: seq<byte>)
    ensures |bs| == 4
  {
    [x % 256, x / 256 % 256, x / 0x1_0000 % 256, x / 0x100_0000]
  }

  function Uint32(bs: seq<byte>): uint32
    requires |bs| == 4
  {
    (bs[0] as int) + 256 * (bs[1] as int) + 0x1_0000 * (bs[2] as int) + 0x100_0000 * (bs[3] as int)
  }

  /** Byte k of a word counts for 256 to the k. */
  lemma LowestFirst(x: uint32)
    ensures var bs := PutUint32(x);
            var b0: int, b1: int, b2: int, b3: int := bs[0], bs[1], bs[2], bs[3];
            x == b0 + 0x100 * b1 + 0x1_0000 * b2 + 0x100_0000 * b3
  {
    assert x / 256 / 256 == x / 0x1_0000 && x / 0x1_0000 / 256 == x / 0x100_0000;
  }

  lemma WordRoundTrip(x: uint32)
    ensures Uint32(PutUint32(x)) == x
  {
    var h := x / 256;
    var g := h / 256;
    assert x / 0x1_0000 == g && x / 0x100_0000 == g / 256;
  }

  lemma BytesRoundTrip(bs: seq<byte>)
    requires |bs| == 4
    ensures PutUint32(Uint32(bs)) == bs
  {
    var x := Uint32(bs);
    var b0: int, b1: int, b2: int, b3: int := bs[0], bs[1], bs[2], bs[3];
    var h := b1 + 256 * b2 + 0x1_0000 * b3;
    var g := b2 + 256 * b3;
    assert x == b0 + 256 * h && h == b1 + 256 * g;
    assert x / 256 == h && h / 256 == g && g / 256 == bs[3];
    assert x / 0x1_0000 == g && x / 0x100_0000 == bs[3];
  }

  /** One (position, value bits) pair per item. */
  type Item = (uint32, uint32)

  function Encode(items: seq<Item>): (bs: seq<byte>)
    ensures |bs| == 8 * |items|
  {
    if items == [] then []
    else
      var last := items[|items|-1];
      Encode(items[..|items|-1]) + PutUint32(last.0) + PutUint32(last.1)
  }

  function Decode(bs: seq<byte>): (items: seq<Item>)
    requires |bs| % 8 == 0
    ensures |items| == |bs| / 8
  {
    if bs == [] then []
    else
      var n := |bs| - 8;
      Decode(bs[..n]) + [(Uint32(bs[n..n+4]), Uint32(bs[n+4..n+8]))]
  }

  /** MAIN RESULT: deserializing what was serialized gives the same positions and value bits, in order. */
  lemma {:induction false} DecodeEncode(items: seq<Item>)
    ensures Decode(Encode(items)) == items
  {
    if items != [] {
      var front, last := items[..|items|-1], items[|items|-1];
      DecodeEncode(front);
      AppendWords(Encode(front), PutUint32(last.0), PutUint32(last.1));
      WordRoundTrip(last.0);
      WordRoundTrip(last.1);
      assert front + [last] == items;
    }
  }

  lemma AppendWords(bs: seq<byte>, v: seq<byte>, w: seq<byte>)
    requires |bs| % 8 == 0 && |v| == |w| == 4
    ensures Decode(bs + v + w) == Decode(bs) + [(Uint32(v), Uint32(w))]
  {
    var all, n := bs + v + w, |bs|;
    assert all[..n] == bs && all[n..n+4] == v && all[n+4..n+8] == w;
  }

  /** ... and every byte string whose length is a multiple of 8 is the serialization of what it deserializes to. */
  lemma {:induction false} EncodeDecode(bs: seq<byte>)
    requires |bs| % 8 == 0
    ensures Encode(Decode(bs)) == bs
  {
    if bs != [] {
      var n := |bs| - 8;
      var items := Decode(bs);
      EncodeDecode(bs[..n]);
      BytesRoundTrip(bs[n..n+4]);
      BytesRoundTrip(bs[n+4..n+8]);
      assert items[..|items|-1] == Decode(bs[..n]);
      assert bs[..n] + bs[n..n+4] + bs[n+4..n+8] == bs;
    }
  }

  // ----- Sorting in tandem -----

  function Items(positions: seq<uint32>, values: seq<uint32>): (items: seq<Item>)
    requires |positions| == |values|
    ensures |items| == |positions|
    ensures forall i :: 0 <= i < |items| ==> items[i] == (positions[i], values[i])
  {
    seq(|positions|, i requires 0 <= i < |positions| => (positions[i], values[i]))
  }

  type Swaps = seq<(nat, nat)>

  predicate InBounds(swaps: Swaps, n: nat) {
    forall k :: 0 <= k < |swaps| ==> swaps[k].0 < n && swaps[k].1 < n
  }

  function Swapped<T>(s: seq<T>, i: nat, j: nat): (r: seq<T>)
    requires i < |s| && j < |s|
    ensures |r| == |s|
  {
    s[i := s[j]][j := s[i]]
  }

  /** What a sorting algorithm that only calls Swap makes of a list. */
  function AfterSwaps<T>(s: seq<T>, swaps: Swaps): (r: seq<T>)
    requires InBounds(swaps, |s|)
    ensures |r| == |s|
  {
    if swaps == [] then s
    else Swapped(AfterSwaps(s, swaps[..|swaps|-1]), swaps[|swaps|-1].0, swaps[|swaps|-1].1)
  }

  lemma SwappedMultiset<T>(s: seq<T>, i: nat, j: nat)
    requires i < |s| && j < |s|
    ensures multiset(Swapped(s, i, j)) == multiset(s)
  {
  }

  lemma {:induction false} SwapsMultiset<T>(s: seq<T>, swaps: Swaps)
    requires InBounds(swaps, |s|)
    ensures multiset(AfterSwaps(s, swaps)) == multiset(s)
  {
    if swaps != [] {
      var front, last := swaps[..|swaps|-1], swaps[|swaps|-1];
      SwapsMultiset(s, front);
      SwappedMultiset(AfterSwaps(s, front), last.0, last.1);
    }
  }

  /** Swapping both lists in tandem moves the pairs. */
  lemma {:induction false} SwapsInTandem(positions: seq<uint32>, values: seq<uint32>, swaps: Swaps)
    requires |positions| == |values| && InBounds(swaps, |positions|)
    ensures Items(AfterSwaps(positions, swaps), AfterSwaps(values, swaps))
            == AfterSwaps(Items(positions, values), swaps)
  {
    if swaps != [] {
      SwapsInTandem(positions, values, swaps[..|swaps|-1]);
    }
  }

  ghost predicate Sorted(positions: seq<uint32>) {
    forall i, j :: 0 <= i < j < |positions| ==> positions[i] <= positions[j]
  }

  /** A sorting algorithm is any choice of swaps that sorts the positions. */
  ghost predicate Sorts(swaps: Swaps, positions: seq<uint32>) {
    InBounds(swaps, |positions|) && Sorted(AfterSwaps(positions, swaps))
  }

  ghost predicate SortedTo(s: seq<uint32>, k: nat) {
    forall i, j :: 0 <= i < k && i < j < |s| ==> s[i] <= s[j]
  }

  /** Some swaps always sort. */
  lemma {:induction false} SomeSwapsSort(positions: seq<uint32>, k: nat) returns (swaps: Swaps)
    requires k <= |positions|
    ensures InBounds(swaps, |positions|) && SortedTo(AfterSwaps(positions, swaps), k)
    ensures k == |positions| ==> Sorts(swaps, positions)
  {
    swaps := [];
    if k > 0 {
      var before := SomeSwapsSort(positions, k - 1);
      var s := AfterSwaps(positions, before);
      var m := Smallest(s, k - 1);
      swaps := before + [(k - 1, m)];
      assert swaps[..|swaps|-1] == before;
      assert AfterSwaps(positions, swaps) == Swapped(s, k - 1, m);
    }
  }

  lemma Smallest(s: seq<uint32>, from: nat) returns (m: nat)
    requires from < |s|
    ensures from <= m < |s| && forall i :: from <= i < |s| ==> s[m] <= s[i]
    decreases |s| - from
  {
    m := from;
    if from + 1 < |s| {
      var m' := Smallest(s, from + 1);
      if s[m'] < s[from] {
        m := m';
      }
    }
  }

  class SliceSparseEmbedding {
    var positions: array<uint32>
    var values: array<uint32>
    var dim: nat
    var len: nat

    ghost predicate Valid()
      reads this
    {
      positions.Length == values.Length == len && positions != values
    }

    ghost function Pairs(): (items: seq<Item>)
      reads this, positions, values
      requires Valid()
    {
      Items(positions[..], values[..])
    }

    constructor Wrap(positions: array<uint32>, values: array<uint32>)
      requires positions.Length == values.Length && positions != values
      ensures Valid() && this.positions == positions && this.values == values && dim == 0
    {
      this.positions, this.values, dim, len := positions, values, 0, positions.Length;
    }

    /** Swaps a position and its value with another pair. */
    method Swap(i: nat, j: nat)
      requires Valid() && i < len && j < len
      modifies positions, values
      ensures positions[..] == Swapped(old(positions[..]), i, j)
      ensures values[..] == Swapped(old(values[..]), i, j)
    {
      positions[i], positions[j] := positions[j], positions[i];
      values[i], values[j] := values[j], values[i];
    }

    /** The library's sort: some swaps that sort the positions. */
    method Sort(swaps: Swaps)
      requires Valid() && Sorts(swaps, positions[..])
      modifies positions, values
      ensures Sorted(positions[..]) && positions[..] == AfterSwaps(old(positions[..]), swaps)
      ensures Pairs() == AfterSwaps(old(Pairs()), swaps)
      ensures multiset(Pairs()) == multiset(old(Pairs()))
    {
      ghost var ps, vs := positions[..], values[..];
      for k := 0 to |swaps|
        invariant InBounds(swaps[..k], |ps|)
        invariant positions[..] == AfterSwaps(ps, swaps[..k]) && values[..] == AfterSwaps(vs, swaps[..k])
      {
        assert swaps[..k+1][..k] == swaps[..k];
        Swap(swaps[k].0, swaps[k].1);
      }
      assert swaps[..|swaps|] == swaps;
      SwapsInTandem(ps, vs, swaps);
      SwapsMultiset(Items(ps, vs), swaps);
    }

    method Serialize() returns (row: seq<byte>)
      requires Valid()
      ensures row == Encode(Pairs())
    {
      row := [];
      for idx := 0 to len
        invariant row == Encode(Pairs()[..idx])
      {
        assert Pairs()[..idx+1][..idx] == Pairs()[..idx];
        row := row + PutUint32(positions[idx]) + PutUint32(values[idx]);
      }
      assert Pairs()[..len] == Pairs();
    }
  }

  /** The dimension is one above the largest position, which sorting puts last. */
  method SetDim(e: SliceSparseEmbedding)
    requires e.Valid() && Sorted(e.positions[..]) && e.dim == 0
    modifies e`dim
    ensures e.len == 0 ==> e.dim == 0
    ensures e.len > 0 ==> e.dim == (e.positions[e.len-1] as int) + 1
    ensures forall i :: 0 <= i < e.len ==> e.positions[i] < e.dim
  {
    if e.len > 0 {
      e.dim := (e.positions[e.len - 1] as int) + 1;
      assert forall i :: 0 <= i < e.len ==> e.positions[i] == e.positions[..][i];
    }
  }

  /** The pairs come out sorted by position, none lost, and the dimension is one above the largest position. Lists
      of different lengths are refused. */
  method NewSliceSparseEmbedding(positions: array<uint32>, values: array<uint32>, swaps: Swaps)
    returns (e: SliceSparseEmbedding?)
    requires positions != values && (positions.Length == values.Length ==> Sorts(swaps, positions[..]))
    modifies positions, values
    ensures e == null <==> positions.Length != values.Length
    ensures e != null ==> fresh(e) && e.Valid() && e.positions == positions && e.values == values
    ensures e != null ==> Sorted(positions[..])
    ensures e != null ==> multiset(e.Pairs()) == multiset(Items(old(positions[..]), old(values[..])))
    ensures e != null ==> forall i :: 0 <= i < positions.Length ==> positions[i] < e.dim
    ensures e != null ==> if positions.Length == 0 then e.dim == 0 else e.dim - 1 in old(positions[..])
  {
    if positions.Length != values.Length {
      return null;
    }
    e := new SliceSparseEmbedding.Wrap(positions, values);
    ghost var before := positions[..];
    e.Sort(swaps);
    SetDim(e);
    if before != [] {
      LargestIsOld(before, swaps);
    }
  }

  lemma LargestIsOld(before: seq<uint32>, swaps: Swaps)
    requires before != [] && InBounds(swaps, |before|)
    ensures AfterSwaps(before, swaps)[|before|-1] in before
  {
    SwapsMultiset(before, swaps);
    assert AfterSwaps(before, swaps)[|before|-1] in multiset(AfterSwaps(before, swaps));
  }

  lemma DecodeOneMore(bs: seq<byte>, i: nat)
    requires 8 * (i + 1) <= |bs|
    ensures Decode(bs[..8 * (i + 1)])
            == Decode(bs[..8 * i]) + [(Uint32(bs[i * 8..i * 8 + 4]), Uint32(bs[i * 8 + 4..i * 8 + 8]))]
  {
    var part := bs[..8 * (i + 1)];
    assert part[..8 * i] == bs[..8 * i];
    assert part[8 * i..8 * i + 4] == bs[i * 8..i * 8 + 4] && part[8 * i + 4..8 * i + 8] == bs[i * 8 + 4..i * 8 + 8];
  }

  method ReadPair(bs: seq<byte>, i: nat, positions: array<uint32>, values: array<uint32>)
    requires 8 * (i + 1) <= |bs| && i < positions.Length == values.Length && positions != values
    modifies positions, values
    ensures Items(positions[..i+1], values[..i+1])
            == Items(old(positions[..i]), old(values[..i]))
               + [(Uint32(bs[i * 8..i * 8 + 4]), Uint32(bs[i * 8 + 4..i * 8 + 8]))]
  {
    ghost var ps, vs := positions[..i], values[..i];
    positions[i] := Uint32(bs[i * 8..i * 8 + 4]);
    values[i] := Uint32(bs[i * 8 + 4..i * 8 + 8]);
    assert positions[..i+1] == ps + [positions[i]] && values[..i+1] == vs + [values[i]];
    ItemsNext(ps, vs, positions[i], values[i]);
  }

  lemma ItemsNext(positions: seq<uint32>, values: seq<uint32>, position: uint32, value: uint32)
    requires |positions| == |values|
    ensures Items(positions + [position], values + [value]) == Items(positions, values) + [(position, value)]
  {
  }

  /** Fails on lengths that are no multiple of 8. The dimension of the result is left at zero. */
  method DeserializeSliceSparseEmbedding(bs: seq<byte>) returns (e: SliceSparseEmbedding?)
    ensures e == null <==> |bs| % 8 != 0
    ensures e != null ==> fresh(e) && e.Valid() && e.Pairs() == Decode(bs) && e.dim == 0
  {
    if |bs| % 8 != 0 {
      return null;
    }
    var length := |bs| / 8;
    var positions, values := new uint32[length], new uint32[length];
    for i := 0 to length
      invariant Items(positions[..i], values[..i]) == Decode(bs[..8 * i])
    {
      DecodeOneMore(bs, i);
      ReadPair(bs, i, positions, values);
    }
    assert bs[..8 * length] == bs && positions[..length] == positions[..] && values[..length] == values[..];
    e := new SliceSparseEmbedding.Wrap(positions, values);
  }
}
