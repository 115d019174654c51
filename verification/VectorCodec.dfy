/** Vector columns on the wire: all vectors of a column in one flat buffer, cut again by the width that the
    column's type and dimension give. */
module VectorCodec {
  import opened Wrappers

  datatype VectorType = FloatVector | BinaryVector | Float16Vector | BFloat16Vector | Int8Vector

  /** How many buffer elements one vector takes: dim floats or int8s, dim/8 bytes of bits, or 2*dim bytes. */
  function Width(t: VectorType, dim: nat): (w: nat)
    ensures w * ElementBits(t) <= dim * ComponentBits(t) < (w + 1) * ElementBits(t)
  {
    match t
    case FloatVector => dim
    case BinaryVector => dim / 8
    case Float16Vector => dim * 2
    case BFloat16Vector => dim * 2
    case Int8Vector => dim
  }

  /** The bits of one component of a vector, and of one element of the buffer it is stored in. */
  function ComponentBits(t: VectorType): nat {
    match t
    case FloatVector => 32
    case BinaryVector => 1
    case Float16Vector => 16
    case BFloat16Vector => 16
    case Int8Vector => 8
  }

  function ElementBits(t: VectorType): nat {
    if t.FloatVector? then 32 else 8
  }

  function Flatten<T>(vectors: seq<seq<T>>): seq<T> {
    if vectors == [] then [] else Flatten(vectors[..|vectors|-1]) + vectors[|vectors|-1]
  }

  ghost predicate AllWide<T>(vectors: seq<seq<T>>, width: nat) {
    forall i :: 0 <= i < |vectors| ==> |vectors[i]| == width
  }

  /** Appends every vector to the buffer; whatever its length, the dimension is not checked. */
  method EncodeVectors<T>(vectors: seq<seq<T>>) returns (data: seq<T>)
    ensures data == Flatten(vectors)
  {
    data := [];
    for i := 0 to |vectors|
      invariant data == Flatten(vectors[..i])
    {
      assert vectors[..i+1][..i] == vectors[..i];
      data := data + vectors[i];
    }
    assert vectors[..|vectors|] == vectors;
  }

  lemma InBuffer(i: nat, n: nat, width: nat)
    requires i < n
    ensures i * width + width == (i + 1) * width <= n * width
  {
    assert n * width == (i + 1) * width + (n - i - 1) * width;
    assert (n - i - 1) * width >= 0;
  }

  /** The vectors begin to end of a buffer cut into pieces of the given width. */
  function Cut<T>(data: seq<T>, width: nat, begin: nat, end: nat): (vectors: seq<seq<T>>)
    requires begin <= end && end * width <= |data|
    ensures |vectors| == end - begin
    ensures AllWide(vectors, width)
    decreases end
  {
    if begin == end then []
    else
      InBuffer(end - 1, end, width);
      Cut(data, width, begin, end - 1) + [data[(end - 1) * width..end * width]]
  }

  /** The end row; negative means "to the end", which divides by the width. */
  function EndOf(n: nat, width: nat, end: int): (e: nat)
    requires end < 0 ==> width > 0
    ensures end < 0 ==> e * width <= n < (e + 1) * width
  {
    if end < 0 then n / width else end
  }

  /** Decoding rows begin to end divides by zero, asks for a negative capacity or leaves the buffer otherwise. Vectors
      of no width leave no buffer, whatever the rows. */
  ghost predicate Decodable(n: nat, width: nat, begin: int, end: int) {
    && (end < 0 ==> width > 0)
    && var e := EndOf(n, width, end);
       begin == e || (begin < e && (width == 0 || (0 <= begin && e * width <= n)))
  }

  /** What decoding gives. */
  ghost function Decoded<T>(data: seq<T>, width: nat, begin: int, end: int): (vectors: seq<seq<T>>)
    requires Decodable(|data|, width, begin, end)
    ensures |vectors| == EndOf(|data|, width, end) - begin && AllWide(vectors, width)
  {
    var e := EndOf(|data|, width, end);
    if begin == e then [] else if width == 0 then seq(e - begin, _ => []) else Cut(data, width, begin, e)
  }

  /** Copies each vector out of the buffer. */
  method DecodeVectors<T>(data: seq<T>, width: nat, begin: int, end: int) returns (r: Result<seq<seq<T>>>)
    ensures !r.Err? && (r.Ok? <==> Decodable(|data|, width, begin, end))
    ensures end < 0 && width == 0 ==> r.Panic?
    ensures 0 <= end || width > 0 ==>
              var e := if end < 0 then |data| / width else end;
              r.Panic? <==> e < begin || (width > 0 && begin < e && (begin < 0 || e * width > |data|))
    ensures r.Ok? ==> r.value == Decoded(data, width, begin, end)
  {
    var e := end;
    if end < 0 {
      if width == 0 {
        return Panic;
      }
      e := |data| / width;
    }
    if e < begin {
      return Panic;
    }
    var vectors: seq<seq<T>> := [];
    var i := begin;
    while i < e
      invariant begin <= i <= e && |vectors| == i - begin
      invariant width == 0 ==> AllWide(vectors, 0)
      invariant width > 0 && begin < i ==> 0 <= begin && i * width <= |data| && vectors == Cut(data, width, begin, i)
    {
      if i * width < 0 || (i + 1) * width > |data| {
        OutOfBuffer(|data|, width, i, e);
        return Panic;
      }
      var from, to := i * width, (i + 1) * width;
      assert 0 <= from <= to by {
        assert to == from + width;
      }
      if width > 0 {
        assert i >= 0 by {
          if i < 0 { NegativeProduct(i, width); }
        }
      }
      vectors := vectors + [data[from..to]];
      i := i + 1;
    }
    if width == 0 {
      assert forall k :: 0 <= k < |vectors| ==> vectors[k] == [];
    }
    r := Ok(vectors);
  }

  lemma NegativeProduct(i: int, width: nat)
    requires i < 0 && width > 0
    ensures i * width < 0
  {
    assert -i * width >= 1 * width by {
      PrefixFits(1, -i, width);
    }
  }

  /** A row whose vector lies outside the buffer makes the range undecodable. */
  lemma OutOfBuffer(n: nat, width: nat, i: int, e: int)
    requires i < e && (i * width < 0 || (i + 1) * width > n)
    ensures width > 0 && (i < 0 || e * width > n)
  {
    if i >= 0 {
      assert width > 0 by {
        assert width == 0 ==> i * width == 0 && (i + 1) * width == 0;
      }
      PrefixFits(i + 1, e, width);
    } else {
      assert width == 0 ==> i * width == 0 && (i + 1) * width == 0;
    }
  }

  lemma PrefixFits(i: nat, e: nat, width: nat)
    requires i <= e
    ensures i * width <= e * width
  {
    assert e * width == i * width + (e - i) * width;
    assert (e - i) * width >= 0;
  }

  lemma {:induction false} FlattenLength<T>(vectors: seq<seq<T>>, width: nat)
    requires AllWide(vectors, width)
    ensures |Flatten(vectors)| == |vectors| * width
  {
    if vectors != [] {
      var n := |vectors| - 1;
      FlattenLength(vectors[..n], width);
      assert (n + 1) * width == n * width + width;
    }
  }

  lemma {:induction false} CutPrefix<T>(data: seq<T>, more: seq<T>, width: nat, begin: nat, end: nat)
    requires begin <= end && end * width <= |data|
    ensures Cut(data + more, width, begin, end) == Cut(data, width, begin, end)
    decreases end
  {
    if begin < end {
      InBuffer(end - 1, end, width);
      CutPrefix(data, more, width, begin, end - 1);
      assert (data + more)[(end - 1) * width..end * width] == data[(end - 1) * width..end * width];
    }
  }

  lemma {:induction false} CutFlatten<T>(vectors: seq<seq<T>>, width: nat)
    requires AllWide(vectors, width)
    ensures |vectors| * width == |Flatten(vectors)|
    ensures Cut(Flatten(vectors), width, 0, |vectors|) == vectors
  {
    FlattenLength(vectors, width);
    if vectors != [] {
      var n := |vectors| - 1;
      InBuffer(n, n + 1, width);
      CutFlatten(vectors[..n], width);
      CutPrefix(Flatten(vectors[..n]), vectors[n], width, 0, n);
      assert Flatten(vectors)[n * width..(n + 1) * width] == vectors[n];
    }
  }

  /** What decoding a whole encoded column gives. */
  function RoundTrip<T>(vectors: seq<seq<T>>, width: nat): seq<seq<T>>
    requires width > 0
  {
    Cut(Flatten(vectors), width, 0, EndOf(|Flatten(vectors)|, width, -1))
  }

  /** MAIN RESULT: encoding and decoding a column is the identity if and only if every vector has the width of
      the column's type and dimension. */
  lemma RoundTripIff<T>(vectors: seq<seq<T>>, t: VectorType, dim: nat)
    requires Width(t, dim) > 0
    ensures RoundTrip(vectors, Width(t, dim)) == vectors <==> AllWide(vectors, Width(t, dim))
  {
    var width := Width(t, dim);
    if AllWide(vectors, width) {
      CutFlatten(vectors, width);
      EndIs(|vectors|, width);
    }
  }

  lemma EndIs(n: nat, width: nat)
    requires width > 0
    ensures EndOf(n * width, width, -1) == n
  {
    var e := EndOf(n * width, width, -1);
    if e < n {
      PrefixFits(e + 1, n, width);
    }
  }

  /** Decoding a range is slicing the fully decoded column. */
  lemma {:induction false} RangeIsSlice<T>(data: seq<T>, width: nat, begin: nat, end: nat, n: nat)
    requires begin <= end <= n && n * width <= |data|
    ensures end * width <= |data|
    ensures Cut(data, width, begin, end) == Cut(data, width, 0, n)[begin..end]
    decreases n
  {
    PrefixFits(end, n, width);
    if end < n {
      PrefixFits(n - 1, n, width);
      RangeIsSlice(data, width, begin, end, n - 1);
    } else if begin < n {
      PrefixFits(n - 1, n, width);
      RangeIsSlice(data, width, begin, n - 1, n - 1);
    }
  }

  /** The fp16 decoder divides by dim and then by 2. */
  lemma HalfWidthEnd(n: nat, dim: nat)
    requires dim > 0
    ensures n / dim / 2 == n / (dim * 2)
  {
    var q := n / dim;
    var h := q / 2;
    assert n == q * dim + n % dim;
    assert q == 2 * h + q % 2;
    assert q * dim == h * (dim * 2) + (q % 2) * dim by {
      assert (2 * h) * dim == h * (dim * 2);
      assert (2 * h + q % 2) * dim == (2 * h) * dim + (q % 2) * dim;
    }
    var rest := (q % 2) * dim + n % dim;
    assert 0 <= rest < dim * 2 by {
      if q % 2 == 0 { assert (q % 2) * dim == 0; } else { assert (q % 2) * dim == dim; }
    }
    DivisionIs(n, dim * 2, h, rest);
  }

  lemma DivisionIs(n: nat, d: nat, q: nat, r: nat)
    requires d > 0 && r < d && n == q * d + r
    ensures n / d == q
  {
    var p := n / d;
    assert n == p * d + n % d;
    if p < q {
      PrefixFits(p + 1, q, d);
    } else if q < p {
      PrefixFits(q + 1, p, d);
    }
  }

  // ----- Narrow integers -----

  /** Go's conversion to a signed integer of the given width. */
  function Narrow(x: int, bits: nat): int
    requires bits == 8 || bits == 16
  {
    var m := if bits == 8 then 256 else 65536;
    var low := x % m;
    if low < m / 2 then low else low - m
  }

  function NarrowAll(xs: seq<int>, bits: nat): (ys: seq<int>)
    requires bits == 8 || bits == 16
    ensures |ys| == |xs|
    ensures forall i :: 0 <= i < |xs| ==> ys[i] == Narrow(xs[i], bits)
  {
    seq(|xs|, i requires 0 <= i < |xs| => Narrow(xs[i], bits))
  }

  /** An int8 or int16 column travels as int32; reading it back is the identity exactly on values that fit. */
  lemma NarrowIff(xs: seq<int>, bits: nat)
    requires bits == 8 || bits == 16
    ensures NarrowAll(xs, bits) == xs
            <==> forall i :: 0 <= i < |xs| ==> if bits == 8 then -128 <= xs[i] < 128 else -32768 <= xs[i] < 32768
  {
    var ys := NarrowAll(xs, bits);
    if ys == xs {
      assert forall i :: 0 <= i < |xs| ==> xs[i] == ys[i];
    }
  }

  /** Int8 vectors travel as bytes; a byte read back as int8 is the value it came from. */
  lemma BytesOfInt8(xs: seq<int>)
    requires forall i :: 0 <= i < |xs| ==> -128 <= xs[i] < 128
    ensures NarrowAll(BytesOf(xs), 8) == xs
  {
  }

  function BytesOf(xs: seq<int>): (bytes: seq<int>)
    ensures |bytes| == |xs|
    ensures forall i :: 0 <= i < |xs| ==> bytes[i] == xs[i] % 256 && 0 <= bytes[i] < 256
  {
    seq(|xs|, i requires 0 <= i < |xs| => xs[i] % 256)
  }
}
