/** Columns as the client builds them: a name-less core of genericColumnBase over a shared backing array,
    proved against NullableCells. A Go slice is the part of buf from off, of length n. */
module NullableColumns {
  import opened Wrappers
  import opened NullableCells

  class Column<T(0)> {
    var buf: array<T>
    var off: nat
    var n: nat
    var nullable: bool
    /** Kept only while nullable is set: the source's validData is nil otherwise. */
    var validData: seq<bool>
    var sparseMode: bool
    var indexMapping: seq<int>

    ghost predicate Valid()
      reads this
    {
      off + n <= buf.Length && (!nullable ==> validData == [])
    }

    ghost function Values(): (values: seq<T>)
      reads this, buf
      requires Valid()
      ensures |values| == n
    {
      buf[off..off+n]
    }

    ghost function State(): Stored<T>
      reads this, buf
      requires Valid()
    {
      Stored(Values(), validData, indexMapping)
    }

    function Len(): nat
      reads this
    {
      if nullable then |validData| else n
    }

    /** The lengths of values and flags agree as ValidateNullable demands. */
    ghost predicate Validated()
      reads this, buf
      requires Valid()
    {
      nullable ==> Validates(State(), sparseMode) && (!sparseMode ==> indexMapping == Rank(validData))
    }

    /** The logical content: one optional value per row. */
    ghost function Cells(): (cells: seq<Option<T>>)
      reads this, buf
      requires Valid() && Validated()
      ensures |cells| == Len()
    {
      if !nullable then AllSome(Values())
      else if sparseMode then SparseCells(Values(), validData)
      else CompactCells(Values(), validData)
    }

    /** Wraps the caller's slice without copying it, as NullableColumnCreator.New does, and validates. */
    constructor New(values: array<T>, flags: seq<bool>, sparse: bool)
      ensures Valid() && buf == values && off == 0 && n == values.Length
      ensures nullable == (flags != []) && validData == flags && sparseMode == sparse
      ensures nullable && !sparse ==> indexMapping == Rank(flags)
      ensures (!nullable || Validates(State(), sparse)) == Validated()
    {
      buf, off, n := values, 0, values.Length;
      nullable, validData, sparseMode := |flags| > 0, flags, sparse;
      indexMapping := [];
      new;
      var ok := ValidateNullable();
    }

    /** The recomputed mapping is the rank function of the flags; the answer says whether the numbers of
        values and of flags fit together. A column that was kept up to date is left as it was. */
    method ValidateNullable() returns (ok: bool)
      requires Valid()
      modifies this`indexMapping
      ensures Valid() && ok == (nullable ==> Validates(State(), sparseMode))
      ensures indexMapping == if nullable && !sparseMode then Rank(validData) else old(indexMapping)
      ensures ok == Validated()
      ensures old(Validated()) ==> State() == old(State())
    {
      if !nullable {
        return true;
      }
      if sparseMode {
        return |validData| == n;
      }
      var validCnt := 0;
      indexMapping := [];
      for idx := 0 to |validData|
        invariant validCnt == CountTo(validData, idx)
        invariant indexMapping == Rank(validData)[..idx]
      {
        if validData[idx] {
          indexMapping := indexMapping + [validCnt];
          validCnt := validCnt + 1;
        } else {
          indexMapping := indexMapping + [-1];
        }
      }
      ok := validCnt == n;
    }

    /** Stores one more value: in the spare capacity behind the slice if there is some, else in a new
        backing array. */
    method Push(v: T)
      requires Valid()
      modifies this`buf, this`off, this`n, buf
      ensures Valid() && Values() == old(Values()) + [v]
      ensures if old(off + n) < old(buf.Length) then buf == old(buf) && off == old(off) else fresh(buf)
      ensures buf == old(buf) ==> forall i :: 0 <= i < buf.Length && i != old(off + n) ==> buf[i] == old(buf[i])
    {
      if off + n < buf.Length {
        buf[off + n] := v;
      } else {
        var values := buf[off..off+n];
        buf := new T[2 * n + 1];
        off := 0;
        for i := 0 to n
          invariant fresh(buf) && buf.Length == 2 * n + 1 && off == 0 && n == old(n)
          invariant buf[..i] == values[..i]
        {
          buf[i] := values[i];
        }
        buf[n] := v;
      }
      n := n + 1;
    }

    /** A value, or a null; a null is refused by a column that is not nullable. */
    method AppendValue(cell: Option<T>) returns (ok: bool)
      requires Valid()
      modifies this, buf
      ensures Valid() && nullable == old(nullable) && sparseMode == old(sparseMode)
      ensures ok == (nullable || cell.Some?)
      ensures !ok ==> State() == old(State())
      ensures ok && nullable ==> State() == Append(old(State()), sparseMode, cell)
      ensures ok && !nullable ==> State() == old(State()).(values := old(Values()) + [cell.value])
      ensures if cell.None? || old(off + n) < old(buf.Length) then buf == old(buf) else fresh(buf)
    {
      if cell.None? {
        ok := AppendNull();
        return;
      }
      Push(cell.value);
      if nullable {
        validData := validData + [true];
        indexMapping := indexMapping + [n - 1];
      }
      ok := true;
    }

    method AppendNull() returns (ok: bool)
      requires Valid()
      modifies this`validData, this`indexMapping
      ensures Valid() && ok == nullable
      ensures ok ==> State() == Append(old(State()), sparseMode, None)
      ensures indexMapping == if ok && !sparseMode then old(indexMapping) + [-1] else old(indexMapping)
      ensures !ok ==> State() == old(State())
    {
      if !nullable {
        return false;
      }
      validData := validData + [false];
      if !sparseMode {
        indexMapping := indexMapping + [-1];
      }
      ok := true;
    }

    /** Reads one cell; see GetIsTheCell for what this means on a compact column. */
    method Get(idx: int) returns (r: Result<T>)
      requires Valid()
      ensures nullable ==> r == NullableCells.Get(State(), sparseMode, idx)
      ensures !nullable ==> r == if 0 <= idx < n then Ok(Values()[idx]) else Err
      ensures nullable && sparseMode ==>
                && (r.Err? <==> idx < 0 || idx >= |validData|)
                && (r.Panic? <==> n <= idx < |validData|)
                && (r.Ok? ==> r.value == Values()[idx])
      ensures nullable && !sparseMode ==>
                && (r.Panic? <==> idx < 0 || idx >= |indexMapping| || n <= indexMapping[idx] < |validData|)
                && (r.Ok? ==> r.value == Values()[indexMapping[idx]])
    {
      var at := idx;
      if nullable && !sparseMode {
        if idx < 0 || idx >= |indexMapping| {
          return Panic;
        }
        at := indexMapping[idx];
      }
      if at < 0 || at >= Len() {
        return Err;
      }
      if at >= n {
        return Panic;
      }
      r := Ok(buf[off + at]);
    }

    method IsNull(idx: int) returns (r: Result<bool>)
      requires Valid()
      ensures r.Err? <==> !(0 <= idx < Len())
      ensures r.Ok? <==> 0 <= idx < Len()
      ensures r.Ok? && Validated() ==> r.value == Cells()[idx].None?
    {
      if idx < 0 || idx >= Len() {
        return Err;
      }
      if !nullable {
        return Ok(false);
      }
      r := Ok(!validData[idx]);
    }

    /** Moves the valid values of a sparse column to the front, in place, and cuts the rest off. The mode stays
        sparse. Reading past the end of the values panics; this is the only way to fail. */
    method CompactNullableValues() returns (panicked: bool)
      requires Valid()
      modifies this`n, this`indexMapping, buf
      ensures Valid()
      ensures panicked <==> nullable && sparseMode && !InRange(validData, old(n))
      ensures !(nullable && sparseMode) ==> State() == old(State())
      ensures nullable && sparseMode && !panicked ==>
                && Values() == Pack(old(Values()), validData)
                && indexMapping == Rank(validData)
      ensures !panicked ==> forall i :: 0 <= i < off || off + n <= i < buf.Length ==> buf[i] == old(buf[i])
    {
      if !nullable || !sparseMode {
        return false;
      }
      var cnt;
      panicked, cnt, indexMapping := CompactInPlace(buf, off, n, validData);
      if !panicked {
        n := cnt;
      }
    }

    /** The loop itself, on the backing array. */
    static method CompactInPlace(data: array<T>, off: nat, n: nat, valid: seq<bool>)
      returns (panicked: bool, cnt: nat, mapping: seq<int>)
      requires off + n <= data.Length
      modifies data
      ensures panicked == !InRange(valid, n)
      ensures !panicked ==> cnt == CountValid(valid) <= n
      ensures !panicked ==> data[off..off+cnt] == Pack(old(data[off..off+n]), valid) && mapping == Rank(valid)
      ensures !panicked ==> forall i :: 0 <= i < off || off + cnt <= i < data.Length ==> data[i] == old(data[i])
    {
      ghost var values := data[off..off+n];
      panicked, cnt, mapping := false, 0, [];
      for idx := 0 to |valid|
        invariant InRangeTo(valid, idx, n)
        invariant cnt == CountTo(valid, idx) <= n
        invariant mapping == Rank(valid)[..idx]
        invariant !panicked && forall i :: 0 <= i < cnt ==> data[off + i] == PackTo(values, valid, idx)[i]
        invariant forall i :: 0 <= i < off || off + cnt <= i < data.Length ==> data[i] == old(data[i])
      {
        if valid[idx] && idx >= n {
          panicked := true;
          return;
        }
        if !valid[idx] {
          mapping := mapping + [-1];
          continue;
        }
        assert data[off + idx] == values[idx];
        data[off + cnt] := data[off + idx];
        mapping := mapping + [cnt];
        cnt := cnt + 1;
      }
    }

    method SetNullable(flag: bool)
      requires Valid()
      modifies this`nullable, this`validData
      ensures Valid() && nullable == flag
      ensures validData == if !flag then [] else if old(nullable) then old(validData) else seq(n, _ => true)
    {
      if flag && !nullable {
        validData := seq(n, _ => true);
      }
      nullable := flag;
      if !nullable {
        validData := [];
      }
    }

    /** Where a slice bound ends up: clamped to the length, and -1 as an end means "to the end". */
    function StartOf(start: int): (a: int)
      reads this
      ensures a <= start && a <= Len() && (a == start || a == Len())
    {
      if start > Len() then Len() else start
    }

    function EndOf(end: int): (b: int)
      reads this
      ensures end == -1 ==> b == Len()
      ensures end != -1 ==> b <= end && b <= Len() && (b == end || b == Len())
    {
      if end == -1 || end > Len() then Len() else end
    }

    /** A view of rows start to end that shares the backing array. It panics exactly if the bounds are negative or in
        the wrong order, or lie behind the values' capacity. A slice of a sparse column, or of one without nulls, is
        the slice of its cells. One of a compact nullable column is of no use: reading any cell of it panics, and it
        can only be validated again if no null is in it. */
    method Slice(start: int, end: int) returns (r: Result<Column<T>>)
      requires Valid()
      ensures !r.Err? && (r.Ok? <==> 0 <= StartOf(start) <= EndOf(end) && off + EndOf(end) <= buf.Length)
      ensures r.Ok? ==> fresh(r.value) && r.value.Valid() && r.value.buf == buf && r.value.off == off + StartOf(start)
      ensures r.Ok? ==> r.value.nullable == nullable && r.value.sparseMode == sparseMode
      ensures r.Ok? ==> r.value.Len() == EndOf(end) - StartOf(start)
      ensures r.Ok? && Validated() && (nullable ==> sparseMode) ==>
                r.value.Validated() && r.value.Cells() == Cells()[StartOf(start)..EndOf(end)]
      ensures r.Ok? && nullable && !sparseMode ==>
                forall idx :: NullableCells.Get(r.value.State(), false, idx) == Panic
      ensures r.Ok? && nullable && !sparseMode ==>
                (Validates(r.value.State(), false) <==> forall i :: StartOf(start) <= i < EndOf(end) ==> validData[i])
    {
      var a, b := StartOf(start), EndOf(end);
      if !(0 <= a <= b && off + b <= buf.Length) {
        return Panic;
      }
      var c := Part(a, b);
      if nullable && !sparseMode {
        CountFullIff(validData[a..b]);
      } else if Validated() {
        SlicedCells(Values(), if nullable then validData else seq(n, _ => true), a, b);
      }
      r := Ok(c);
    }

    method Part(a: nat, b: nat) returns (c: Column<T>)
      requires Valid() && a <= b <= Len() && off + b <= buf.Length
      ensures fresh(c) && c.Valid() && c.buf == buf && c.off == off + a
      ensures c.nullable == nullable && c.sparseMode == sparseMode && c.indexMapping == []
      ensures c.validData == (if nullable then validData[a..b] else []) && c.n == b - a
      ensures b <= n ==> c.Values() == Values()[a..b]
    {
      ghost var all := buf[..];
      assert Values() == all[off..off+n];
      if b <= n {
        SubSlice(all, off, n, a, b);
      }
      var flags := if nullable then validData[a..b] else [];
      c := new Column<T>.View(buf, off + a, b - a, nullable, flags, sparseMode);
      assert c.Values() == all[off+a..off+a+(b-a)];
    }

    constructor View(values: array<T>, off: nat, n: nat, nullable: bool, flags: seq<bool>, sparse: bool)
      requires off + n <= values.Length && (!nullable ==> flags == [])
      ensures Valid() && buf == values && this.off == off && this.n == n
      ensures this.nullable == nullable && validData == flags && sparseMode == sparse && indexMapping == []
    {
      this.buf, this.off, this.n := values, off, n;
      this.nullable, validData, sparseMode, indexMapping := nullable, flags, sparse, [];
    }
  }

  /** Round trip: a validated sparse column, compacted in place and reopened over the same backing array as a compact
      one, still has the same logical cells. */
  method CompactAndReopen<T(0)>(c: Column<T>) returns (d: Column<T>)
    requires c.Valid() && c.Validated() && c.nullable && c.sparseMode
    modifies c, c.buf
    ensures fresh(d) && d.Valid() && d.Validated() && !d.sparseMode && d.buf == old(c.buf)
    ensures d.Cells() == old(c.Cells())
  {
    ghost var values, flags := c.Values(), c.validData;
    var panicked := c.CompactNullableValues();
    d := new Column<T>.View(c.buf, c.off, c.n, |c.validData| > 0, c.validData, false);
    var ok := d.ValidateNullable();
    PackKeepsCells(values, flags);
    assert d.Values() == Pack(values, flags);
  }
}
