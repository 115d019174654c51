/** Columns as values, with the encoding they are stored in: what a reader of one cell gets, and what goes on the
    wire. */
module StoredColumns {
  import opened Wrappers
  import opened NullableCells

  /** A column; only a nullable one has flags, and only a compact nullable one is read through the mapping. */
  datatype StoredColumn<T> =
    StoredColumn(name: string, kind: nat, dim: int, nullable: bool, sparse: bool, stored: Stored<T>)

  function Len<T>(col: StoredColumn<T>): nat {
    if col.nullable then |col.stored.valid| else |col.stored.values|
  }

  /** Reading cell i. */
  function Read<T>(col: StoredColumn<T>, i: nat): Result<T> {
    if col.nullable then Get(col.stored, col.sparse, i)
    else if i < |col.stored.values| then Ok(col.stored.values[i]) else Err
  }

  /** Values, flags and mapping fit together, as validation demands. */
  ghost predicate Sound<T>(col: StoredColumn<T>) {
    if !col.nullable then col.stored.valid == []
    else if col.sparse then Validates(col.stored, true)
    else Consistent(col.stored)
  }

  /** The logical content of a sound column. */
  ghost function Cells<T>(col: StoredColumn<T>): (cells: seq<Option<T>>)
    requires Sound(col)
    ensures |cells| == Len(col)
  {
    if !col.nullable then AllSome(col.stored.values)
    else if col.sparse then SparseCells(col.stored.values, col.stored.valid)
    else CompactCells(col.stored.values, col.stored.valid)
  }

  /** Exactly when reading gives the logical cell: always, except at the nulls of a sparse column, which read as their
      fillers. Past the end a compact nullable column panics, and any other gives an error. */
  lemma ReadIsTheCellIff<T>(col: StoredColumn<T>, i: nat)
    requires Sound(col)
    ensures i < Len(col) ==>
              (Read(col, i) == CellResult(Cells(col)[i]) <==> !(col.nullable && col.sparse && Cells(col)[i].None?))
    ensures i < Len(col) && col.nullable && col.sparse ==> Read(col, i) == Ok(col.stored.values[i])
    ensures i >= Len(col) ==> Read(col, i) == if col.nullable && !col.sparse then Panic else Err
  {
    if col.nullable {
      if col.sparse {
        SparseGetIsTheCellIff(col.stored, i);
      } else {
        GetIsTheCell(col.stored, i);
      }
    }
  }

  // ----- Columns that are built by appending -----

  function Nothing<T>(): Stored<T> {
    Stored([], [], [])
  }

  /** The column to which the cells were appended one by one; a null cannot be appended to one that is not nullable. */
  function Built<T>(name: string, kind: nat, dim: int, nullable: bool, cells: seq<Option<T>>): StoredColumn<T> {
    var s := AppendAll(Nothing(), false, cells);
    StoredColumn(name, kind, dim, nullable, false, if nullable then s else Stored(s.values, [], []))
  }

  ghost predicate NoNulls<T>(cells: seq<Option<T>>) {
    forall i :: 0 <= i < |cells| ==> cells[i].Some?
  }

  /** Such a column stands for the cells that were appended. */
  lemma BuiltIs<T>(name: string, kind: nat, dim: int, nullable: bool, cells: seq<Option<T>>)
    requires nullable || NoNulls(cells)
    ensures var col := Built(name, kind, dim, nullable, cells);
            Sound(col) && Cells(col) == cells
  {
    var s := AppendAll<T>(Nothing(), false, cells);
    AppendsRepresentCells<T>(Nothing(), cells);
    assert CompactCells<T>([], []) + cells == cells;
    if !nullable {
      forall i | 0 <= i < |s.valid|
        ensures s.valid[i]
      {
        assert CompactCells(s.values, s.valid)[i].Some?;
      }
      AllValidCells(s.values, s.valid);
    }
  }

  /** Where no cell is null, the values are the cells. */
  lemma AllValidCells<T>(values: seq<T>, valid: seq<bool>)
    requires forall i :: 0 <= i < |valid| ==> valid[i]
    ensures CountValid(valid) == |valid|
    ensures |values| == |valid| ==> CompactCells(values, valid) == AllSome(values)
  {
    CountFull(valid, |valid|);
    if |values| == |valid| {
      forall i | 0 <= i < |valid|
        ensures CompactCells(values, valid)[i] == Some(values[i])
      {
        CountFull(valid, i);
      }
    }
  }

  lemma {:induction false} AppendAllNext<T>(s: Stored<T>, cells: seq<Option<T>>, cell: Option<T>)
    ensures AppendAll(s, false, cells + [cell]) == Append(AppendAll(s, false, cells), false, cell)
    decreases cells
  {
    if cells == [] {
      assert [cell][1..] == [];
      assert cells + [cell] == [cell];
      assert AppendAll(s, false, [cell]) == AppendAll(Append(s, false, cell), false, []);
    } else {
      assert (cells + [cell])[1..] == cells[1..] + [cell];
      AppendAllNext(Append(s, false, cells[0]), cells[1..], cell);
    }
  }

  /** One more cell is one more append. */
  lemma BuiltNext<T>(name: string, kind: nat, dim: int, nullable: bool, cells: seq<Option<T>>, cell: Option<T>)
    requires nullable || cell.Some?
    ensures var col := Built(name, kind, dim, nullable, cells);
            Built(name, kind, dim, nullable, cells + [cell])
            == col.(stored := if nullable then Append(col.stored, false, cell)
                              else Stored(col.stored.values + [cell.value], [], []))
  {
    AppendAllNext<T>(Nothing(), cells, cell);
  }

  // ----- What goes on the wire -----

  /** Turning nullability on marks all values valid. */
  function MakeNullable<T>(col: StoredColumn<T>): (r: StoredColumn<T>)
    ensures r == col.(nullable := true, stored := r.stored) && Len(r) == Len(col)
    ensures r.stored == col.stored.(valid := r.stored.valid)
    ensures !col.nullable ==> forall i :: 0 <= i < |r.stored.valid| ==> r.stored.valid[i]
  {
    if col.nullable then col
    else col.(nullable := true, stored := col.stored.(valid := seq(|col.stored.values|, _ => true)))
  }

  /** Compacting runs off the end of the values. */
  predicate CompactionPanics<T>(col: StoredColumn<T>) {
    col.nullable && col.sparse && !InRange(col.stored.valid, |col.stored.values|)
  }

  /** Sending a column panics if compacting does, or if a sparse-vector column is left without values, whose dimension
      is then asked of nothing. */
  predicate SendPanics<T>(col: StoredColumn<T>) {
    CompactionPanics(col) || (col.kind == SPARSE_VECTOR_KIND && Compacted(col).stored.values == [])
  }

  /** The column after CompactNullableValues; it stays in its mode. */
  function Compacted<T>(col: StoredColumn<T>): StoredColumn<T>
    requires !CompactionPanics(col)
  {
    if col.nullable && col.sparse
    then col.(stored := Stored(Pack(col.stored.values, col.stored.valid), col.stored.valid, Rank(col.stored.valid)))
    else col
  }

  /** A column on the wire: the values, and the flags of a nullable one. */
  datatype Wire<T> = Wire(values: seq<T>, valid: Option<seq<bool>>)

  function WireOf<T>(col: StoredColumn<T>): Wire<T> {
    Wire(col.stored.values, if col.nullable then Some(col.stored.valid) else None)
  }

  /** The cells a server reads, if there are as many values as valid flags. */
  ghost function WireCells<T>(w: Wire<T>): Option<seq<Option<T>>> {
    match w.valid
    case None => Some(AllSome(w.values))
    case Some(valid) => if |w.values| == CountValid(valid) then Some(CompactCells(w.values, valid)) else None
  }

  /** What is sent for a sound column, made nullable or not, are its logical cells. */
  lemma WireKeepsCells<T>(col: StoredColumn<T>)
    requires Sound(col)
    ensures !CompactionPanics(col) && WireCells(WireOf(Compacted(col))) == Some(Cells(col))
    ensures !CompactionPanics(MakeNullable(col)) && WireCells(WireOf(Compacted(MakeNullable(col)))) == Some(Cells(col))
  {
    if col.nullable && col.sparse {
      PackKeepsCells(col.stored.values, col.stored.valid);
    }
    if !col.nullable {
      var values, valid := col.stored.values, MakeNullable(col).stored.valid;
      AllValidCells(values, valid);
      PackKeepsCells(values, valid);
      assert SparseCells(values, valid) == AllSome(values);
    }
  }

  /** Exactly when a sound column cannot be sent: it is a sparse-vector column without a valid cell. */
  lemma SendPanicsIff<T>(col: StoredColumn<T>)
    requires Sound(col)
    ensures !CompactionPanics(col)
    ensures SendPanics(col) <==> col.kind == SPARSE_VECTOR_KIND && forall i :: 0 <= i < Len(col) ==> Cells(col)[i].None?
  {
    WireKeepsCells(col);
    var values := Compacted(col).stored.values;
    if col.nullable {
      NoneValidIff(col.stored.valid);
      assert |values| == CountValid(col.stored.valid);
      assert forall i :: 0 <= i < Len(col) ==> (Cells(col)[i].None? <==> !col.stored.valid[i]);
    } else {
      assert Len(col) == |values|;
      assert forall i :: 0 <= i < Len(col) ==> Cells(col)[i].Some?;
      assert values != [] ==> Cells(col)[0].Some?;
    }
  }

  /** Exactly when a column that was sent cannot be sent again: compaction left it sparse, and a null comes before a
      valid cell. */
  lemma SecondSendPanicsIff<T>(col: StoredColumn<T>)
    requires Sound(col) && !SendPanics(col)
    ensures SendPanics(Compacted(col))
            <==> col.nullable && col.sparse
                 && exists i, j :: 0 <= i < j < Len(col) && !col.stored.valid[i] && col.stored.valid[j]
  {
    if col.nullable && col.sparse {
      CompactTwiceIff(col.stored.valid);
      if InRange(col.stored.valid, CountValid(col.stored.valid)) {
        CompactTwiceIsIdentity(col.stored.values, col.stored.valid);
      }
    }
  }

  /** A column that was only made nullable for sending is sent as it would be otherwise, and can be sent again. */
  lemma MadeNullableIsSent<T>(col: StoredColumn<T>)
    requires Sound(col) && !col.nullable
    ensures SendPanics(MakeNullable(col)) <==> SendPanics(col)
    ensures !SendPanics(col) ==> !SendPanics(Compacted(MakeNullable(col)))
  {
    var made := MakeNullable(col);
    WireKeepsCells(col);
    CompactTwiceIff(made.stored.valid);
    CompactTwiceIsIdentity(col.stored.values, made.stored.valid);
    AllValidCells(col.stored.values, made.stored.valid);
  }
}
