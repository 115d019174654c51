/** Building an insert request out of columns. */
module InsertRequests {
  import opened Wrappers
  import opened RowColumns
  import opened StoredColumns

  /** A column as the client holds it. */
  type Stock = StoredColumn<Payload>

  /** What an insert request carries: the columns of schema fields, the merged records of all other columns, and
      the number of rows it claims. */
  datatype Insert = Insert(fixed: map<string, Wire<Payload>>, merged: Option<seq<MergedRow>>, rowSize: nat)

  /** One JSON object built from the dynamic columns; None is a JSON null. */
  type MergedRow = map<string, Option<Payload>>

  predicate IsFixed(sch: Schema, col: Stock) {
    FieldOf(sch.fields, col.name).Some?
  }

  /** Once a non-empty column has set the row size, every later column must have it. */
  ghost predicate SizesAgree(cols: seq<Stock>) {
    forall i, j :: 0 <= i < j < |cols| && Len(cols[i]) > 0 ==> Len(cols[j]) == Len(cols[i])
  }

  /** No two columns of schema fields share a name. Other columns may. */
  ghost predicate FixedNamesDistinct(sch: Schema, cols: seq<Stock>) {
    forall i, j :: 0 <= i < j < |cols| && IsFixed(sch, cols[i]) ==> cols[i].name != cols[j].name
  }

  /** The type of the schema's field and, for a vector, its dimension, which is compared as text. */
  predicate FitsField(f: Field, col: Stock) {
    && col.kind == f.kind
    && (f.dim.Some? ==> f.dim.value.plain && f.dim.value.value == col.dim)
  }

  predicate FitsSchema(sch: Schema, col: Stock) {
    match FieldOf(sch.fields, col.name)
    case Some(f) => FitsField(f, col)
    case None => sch.dynamic
  }

  ghost predicate Acceptable(sch: Schema, cols: seq<Stock>) {
    && FixedNamesDistinct(sch, cols)
    && SizesAgree(cols)
    && forall i :: 0 <= i < |cols| ==> FitsSchema(sch, cols[i])
  }

  function RowSize(cols: seq<Stock>): nat {
    if cols == [] then 0 else Len(cols[|cols|-1])
  }

  /** A column of a nullable field becomes nullable. */
  function Adapted(sch: Schema, col: Stock): (r: Stock)
    requires IsFixed(sch, col)
    ensures r.nullable <==> col.nullable || FieldOf(sch.fields, col.name).value.nullable
    ensures r != col ==> !col.nullable
  {
    if FieldOf(sch.fields, col.name).value.nullable then MakeNullable(col) else col
  }

  function FixedColumns(sch: Schema, cols: seq<Stock>): map<string, Stock> {
    if cols == [] then map[]
    else
      var col := cols[|cols|-1];
      var others := FixedColumns(sch, cols[..|cols|-1]);
      if IsFixed(sch, col) then others[col.name := Adapted(sch, col)] else others
  }

  function OtherColumns(sch: Schema, cols: seq<Stock>): seq<Stock> {
    if cols == [] then []
    else
      var col := cols[|cols|-1];
      OtherColumns(sch, cols[..|cols|-1]) + (if IsFixed(sch, col) then [] else [col])
  }

  // ----- Merging the dynamic columns -----

  /** Reading a cell whose error is ignored. */
  function CellAt(col: Stock, i: nat): Option<Payload> {
    match Read(col, i)
    case Ok(v) => Some(v)
    case _ => None
  }

  function MergedAt(cols: seq<Stock>, i: nat): MergedRow {
    if cols == [] then map[]
    else MergedAt(cols[..|cols|-1], i)[cols[|cols|-1].name := CellAt(cols[|cols|-1], i)]
  }

  function Merged(cols: seq<Stock>, rowSize: nat): (rows: seq<MergedRow>)
    ensures |rows| == rowSize
    ensures forall i :: 0 <= i < rowSize ==> rows[i] == MergedAt(cols, i)
  {
    seq(rowSize, i requires 0 <= i < rowSize => MergedAt(cols, i))
  }

  ghost predicate ReadPanics(cols: seq<Stock>, i: nat) {
    exists j :: 0 <= j < |cols| && Read(cols[j], i).Panic?
  }

  ghost predicate MergePanics(cols: seq<Stock>, rowSize: nat) {
    exists i: nat :: i < rowSize && ReadPanics(cols, i)
  }

  method MergeRow(i: nat, cols: seq<Stock>) returns (r: Result<MergedRow>)
    ensures r.Panic? <==> ReadPanics(cols, i)
    ensures r.Err? ==> false
    ensures r.Ok? ==> r.value == MergedAt(cols, i)
  {
    var m: MergedRow := map[];
    for j := 0 to |cols|
      invariant m == MergedAt(cols[..j], i)
      invariant forall k :: 0 <= k < j ==> !Read(cols[k], i).Panic?
    {
      assert cols[..j+1][..j] == cols[..j];
      if Read(cols[j], i).Panic? {
        return Panic;
      }
      m := m[cols[j].name := CellAt(cols[j], i)];
    }
    assert cols[..|cols|] == cols;
    r := Ok(m);
  }

  /** One record per row. Errors of single cells are ignored, so only a panic stops it. */
  method MergeDynamicColumns(rowSize: nat, cols: seq<Stock>) returns (r: Result<seq<MergedRow>>)
    ensures r.Panic? <==> MergePanics(cols, rowSize)
    ensures r.Ok? <==> !MergePanics(cols, rowSize)
    ensures r.Ok? ==> r.value == Merged(cols, rowSize)
  {
    var rows: seq<MergedRow> := [];
    for i := 0 to rowSize
      invariant rows == Merged(cols, rowSize)[..i]
      invariant forall k: nat :: k < i ==> !ReadPanics(cols, k)
    {
      var row := MergeRow(i, cols);
      if row.Panic? {
        return Panic;
      }
      rows := rows + [row.value];
    }
    r := Ok(rows);
  }

  /** The merged records have the names of the dynamic columns. */
  lemma {:induction false} MergedNames(cols: seq<Stock>, i: nat, name: string)
    ensures name in MergedAt(cols, i) <==> exists j :: 0 <= j < |cols| && cols[j].name == name
  {
    if cols != [] {
      MergedNames(cols[..|cols|-1], i, name);
    }
  }

  /** Row i of the merged records holds what cell i of every dynamic column reads as; of two with one name, the last
      one's. */
  lemma {:induction false} MergedCellIs(cols: seq<Stock>, i: nat, j: nat)
    requires j < |cols| && forall k :: j < k < |cols| ==> cols[k].name != cols[j].name
    ensures cols[j].name in MergedAt(cols, i) && MergedAt(cols, i)[cols[j].name] == CellAt(cols[j], i)
  {
    var n := |cols| - 1;
    if j < n {
      assert cols[n].name != cols[j].name;
      MergedCellIs(cols[..n], i, j);
    }
  }

  /** Exactly when a record holds the logical cell: unless the cell is a null of a sparse column, whose filler is
      merged in its place. */
  lemma MergedCellIsLogicalIff(col: Stock, i: nat)
    requires Sound(col) && i < Len(col)
    ensures CellAt(col, i) == Cells(col)[i] <==> !(col.nullable && col.sparse && Cells(col)[i].None?)
  {
    ReadIsTheCellIff(col, i);
  }

  /** Exactly when merging sound columns panics: an empty compact nullable column is among them, and there are rows. */
  lemma MergePanicsIff(cols: seq<Stock>, rowSize: nat)
    requires forall j :: 0 <= j < |cols| ==> Sound(cols[j]) && (Len(cols[j]) == 0 || Len(cols[j]) == rowSize)
    ensures MergePanics(cols, rowSize)
            <==> rowSize > 0 && exists j :: 0 <= j < |cols| && cols[j].nullable && !cols[j].sparse && Len(cols[j]) == 0
  {
    forall i: nat, j | i < rowSize && 0 <= j < |cols|
      ensures Read(cols[j], i).Panic? <==> cols[j].nullable && !cols[j].sparse && Len(cols[j]) == 0
    {
      ReadIsTheCellIff(cols[j], i);
    }
    if rowSize > 0 && exists j :: 0 <= j < |cols| && cols[j].nullable && !cols[j].sparse && Len(cols[j]) == 0 {
      assert ReadPanics(cols, 0);
    }
  }

  // ----- Accepting columns -----

  lemma {:induction false} FixedNames(sch: Schema, cols: seq<Stock>, name: string)
    ensures name in FixedColumns(sch, cols)
            <==> exists i :: 0 <= i < |cols| && IsFixed(sch, cols[i]) && cols[i].name == name
  {
    if cols != [] {
      FixedNames(sch, cols[..|cols|-1], name);
    }
  }

  lemma {:induction false} SizesOf(cols: seq<Stock>)
    requires SizesAgree(cols)
    ensures forall i :: 0 <= i < |cols| ==> Len(cols[i]) == 0 || Len(cols[i]) == RowSize(cols)
  {
  }

  lemma NamesNext(sch: Schema, cols: seq<Stock>, col: Stock)
    ensures FixedNamesDistinct(sch, cols + [col])
            <==> FixedNamesDistinct(sch, cols) && col.name !in FixedColumns(sch, cols)
  {
    FixedNames(sch, cols, col.name);
    assert forall i :: 0 <= i < |cols| ==> (cols + [col])[i] == cols[i];
    assert (cols + [col])[|cols|] == col;
  }

  lemma SizesNext(cols: seq<Stock>, col: Stock)
    ensures SizesAgree(cols + [col]) <==> SizesAgree(cols) && (RowSize(cols) == 0 || RowSize(cols) == Len(col))
  {
    assert forall i :: 0 <= i < |cols| ==> (cols + [col])[i] == cols[i];
    assert (cols + [col])[|cols|] == col;
    if SizesAgree(cols) {
      SizesOf(cols);
      assert RowSize(cols) > 0 ==> Len(cols[|cols|-1]) == RowSize(cols);
    }
  }

  /** Whether one more column is acceptable depends on the names so far, the row size so far and its field. */
  lemma AcceptableNext(sch: Schema, cols: seq<Stock>, col: Stock)
    ensures Acceptable(sch, cols + [col])
            <==> && Acceptable(sch, cols)
                 && col.name !in FixedColumns(sch, cols)
                 && (RowSize(cols) == 0 || RowSize(cols) == Len(col))
                 && FitsSchema(sch, col)
  {
    NamesNext(sch, cols, col);
    SizesNext(cols, col);
    assert forall i :: 0 <= i < |cols| ==> (cols + [col])[i] == cols[i];
    assert (cols + [col])[|cols|] == col;
  }

  lemma ColumnsNext(sch: Schema, cols: seq<Stock>, col: Stock)
    ensures FixedColumns(sch, cols + [col])
            == if IsFixed(sch, col) then FixedColumns(sch, cols)[col.name := Adapted(sch, col)]
               else FixedColumns(sch, cols)
    ensures OtherColumns(sch, cols + [col]) == OtherColumns(sch, cols) + (if IsFixed(sch, col) then [] else [col])
    ensures RowSize(cols + [col]) == Len(col)
  {
    assert (cols + [col])[..|cols + [col]|-1] == cols;
  }

  lemma AcceptablePrefix(sch: Schema, cols: seq<Stock>, i: nat)
    requires i <= |cols| && Acceptable(sch, cols)
    ensures Acceptable(sch, cols[..i])
  {
  }

  /** What the request is built from for each schema field is the one column of its name, made nullable if the field
      is. */
  lemma {:induction false} FixedColumnIs(sch: Schema, cols: seq<Stock>, i: nat)
    requires FixedNamesDistinct(sch, cols) && i < |cols| && IsFixed(sch, cols[i])
    ensures cols[i].name in FixedColumns(sch, cols) && FixedColumns(sch, cols)[cols[i].name] == Adapted(sch, cols[i])
  {
    if i < |cols| - 1 {
      FixedColumnIs(sch, cols[..|cols|-1], i);
    }
  }

  ghost predicate SomeSendPanics(fixed: map<string, Stock>) {
    exists name :: name in fixed && SendPanics(fixed[name])
  }

  function Wires(fixed: map<string, Stock>): map<string, Wire<Payload>>
    requires !SomeSendPanics(fixed)
  {
    map name | name in fixed :: WireOf(Compacted(fixed[name]))
  }

  /** Compacts every column of a schema field and takes its wire form; in which order does not matter. */
  method CompactAll(fixed: map<string, Stock>) returns (r: Result<map<string, Wire<Payload>>>)
    ensures r.Panic? <==> SomeSendPanics(fixed)
    ensures r.Ok? <==> !SomeSendPanics(fixed)
    ensures r.Ok? ==> r.value == Wires(fixed)
  {
    var wires: map<string, Wire<Payload>> := map[];
    var pending := fixed.Keys;
    while pending != {}
      invariant pending <= fixed.Keys && wires.Keys == fixed.Keys - pending
      invariant forall name :: name in wires ==>
                  !SendPanics(fixed[name]) && wires[name] == WireOf(Compacted(fixed[name]))
      decreases pending
    {
      var name :| name in pending;
      if CompactionPanics(fixed[name]) {
        return Panic;
      }
      var col := Compacted(fixed[name]);
      if col.kind == SPARSE_VECTOR_KIND && |col.stored.values| == 0 {
        return Panic;
      }
      wires := wires[name := WireOf(col)];
      pending := pending - {name};
    }
    r := Ok(wires);
  }

  /** The columns are acceptable, but encoding them runs out of a bound. */
  ghost predicate EncodingPanics(sch: Schema, cols: seq<Stock>) {
    SomeSendPanics(FixedColumns(sch, cols)) || MergePanics(OtherColumns(sch, cols), RowSize(cols))
  }

  /** The loop over the columns: it goes through exactly on acceptable ones. */
  method CheckColumns(sch: Schema, cols: seq<Stock>)
    returns (ok: bool, fixed: map<string, Stock>, others: seq<Stock>, rowSize: nat)
    ensures ok == Acceptable(sch, cols)
    ensures ok ==> fixed == FixedColumns(sch, cols) && others == OtherColumns(sch, cols) && rowSize == RowSize(cols)
  {
    ok, fixed, others, rowSize := false, map[], [], 0;
    for i := 0 to |cols|
      invariant Acceptable(sch, cols[..i])
      invariant rowSize == RowSize(cols[..i])
      invariant fixed == FixedColumns(sch, cols[..i]) && others == OtherColumns(sch, cols[..i])
    {
      var col := cols[i];
      ColumnStep(sch, cols, i);
      if col.name in fixed {
        return;
      }
      var l := Len(col);
      if rowSize == 0 {
        rowSize := l;
      } else if rowSize != l {
        return;
      }
      var field := FieldOf(sch.fields, col.name);
      if field.None? {
        if !sch.dynamic {
          return;
        }
        others := others + [col];
        continue;
      }
      if field.value.nullable {
        col := MakeNullable(col);
      }
      fixed := fixed[col.name := col];
      if col.kind != field.value.kind {
        return;
      }
      if field.value.dim.Some? && !(field.value.dim.value.plain && field.value.dim.value.value == col.dim) {
        return;
      }
    }
    assert cols[..|cols|] == cols;
    ok := true;
  }

  lemma ColumnStep(sch: Schema, cols: seq<Stock>, i: nat)
    requires i < |cols|
    ensures var seen, col := cols[..i], cols[i];
            && (Acceptable(sch, cols[..i+1])
                <==> && Acceptable(sch, seen)
                     && col.name !in FixedColumns(sch, seen)
                     && (RowSize(seen) == 0 || RowSize(seen) == Len(col))
                     && FitsSchema(sch, col))
            && FixedColumns(sch, cols[..i+1])
               == (if IsFixed(sch, col) then FixedColumns(sch, seen)[col.name := Adapted(sch, col)]
                   else FixedColumns(sch, seen))
            && OtherColumns(sch, cols[..i+1]) == OtherColumns(sch, seen) + (if IsFixed(sch, col) then [] else [col])
            && RowSize(cols[..i+1]) == Len(col)
    ensures Acceptable(sch, cols) ==> Acceptable(sch, cols[..i+1])
  {
    assert cols[..i+1] == cols[..i] + [cols[i]];
    AcceptableNext(sch, cols[..i], cols[i]);
    ColumnsNext(sch, cols[..i], cols[i]);
    if Acceptable(sch, cols) {
      AcceptablePrefix(sch, cols, i + 1);
    }
  }

  /** Refuses exactly columns that are not acceptable: a second one for a schema field, one of another size than an
      earlier non-empty one, one without a field where the schema is not dynamic, or one of another type or dimension
      than its field's. The row size is the last column's; it need not be the number of rows the columns came from. */
  method ProcessInsertColumns(sch: Schema, cols: seq<Stock>) returns (r: Result<Insert>)
    ensures r.Err? <==> !Acceptable(sch, cols)
    ensures r.Err? <==>
              || (exists i, j :: 0 <= i < j < |cols| && cols[i].name == cols[j].name
                                 && FieldOf(sch.fields, cols[i].name).Some?)
              || (exists i, j :: 0 <= i < j < |cols| && Len(cols[i]) > 0 && Len(cols[i]) != Len(cols[j]))
              || (exists i :: 0 <= i < |cols| && FieldOf(sch.fields, cols[i].name).None? && !sch.dynamic)
              || exists i :: 0 <= i < |cols| && FieldOf(sch.fields, cols[i].name).Some?
                             && var f := FieldOf(sch.fields, cols[i].name).value;
                                || cols[i].kind != f.kind
                                || (f.dim.Some? && (!f.dim.value.plain || f.dim.value.value != cols[i].dim))
    ensures r.Panic? <==> Acceptable(sch, cols) && EncodingPanics(sch, cols)
    ensures r.Ok? ==> !SomeSendPanics(FixedColumns(sch, cols))
                      && r.value.fixed == Wires(FixedColumns(sch, cols)) && r.value.rowSize == RowSize(cols)
    ensures r.Ok? ==>
              var others := OtherColumns(sch, cols);
              r.value.merged == if others == [] then None else Some(Merged(others, RowSize(cols)))
  {
    var ok, fixed, others, rowSize := CheckColumns(sch, cols);
    if !ok {
      return Err;
    }
    var wires := CompactAll(fixed);
    if wires.Panic? {
      return Panic;
    }
    var merged: Option<seq<MergedRow>> := None;
    if |others| > 0 {
      var rows := MergeDynamicColumns(rowSize, others);
      if rows.Panic? {
        return Panic;
      }
      merged := Some(rows.value);
    }
    r := Ok(Insert(wires.value, merged, rowSize));
  }

  /** MAIN RESULT: what the request carries for a schema field are the logical cells of its column, whatever mode the
      column is in. */
  lemma RequestKeepsCells(sch: Schema, cols: seq<Stock>, i: nat)
    requires Acceptable(sch, cols) && !SomeSendPanics(FixedColumns(sch, cols))
    requires i < |cols| && IsFixed(sch, cols[i]) && Sound(cols[i])
    ensures var wires := Wires(FixedColumns(sch, cols));
            cols[i].name in wires && WireCells(wires[cols[i].name]) == Some(Cells(cols[i]))
  {
    FixedColumnIs(sch, cols, i);
    WireKeepsCells(cols[i]);
  }

  // ----- Sending the same columns again -----

  /** A column as the first request leaves it. */
  function Sent(sch: Schema, col: Stock): Stock {
    if !IsFixed(sch, col) then col
    else if CompactionPanics(Adapted(sch, col)) then Adapted(sch, col)
    else Compacted(Adapted(sch, col))
  }

  function SentAll(sch: Schema, cols: seq<Stock>): (sent: seq<Stock>)
    ensures |sent| == |cols|
    ensures forall i :: 0 <= i < |cols| ==> sent[i] == Sent(sch, cols[i])
  {
    seq(|cols|, i requires 0 <= i < |cols| => Sent(sch, cols[i]))
  }

  /** A null comes before a valid cell. */
  ghost predicate NullFirst(col: Stock)
    requires Sound(col)
  {
    exists i, j :: 0 <= i < j < Len(col) && Cells(col)[i].None? && Cells(col)[j].Some?
  }

  lemma SentColumn(sch: Schema, col: Stock)
    requires IsFixed(sch, col) && Sound(col)
    ensures var again := Sent(sch, col);
            && again.name == col.name && again.kind == col.kind && again.dim == col.dim && Len(again) == Len(col)
            && Adapted(sch, again) == again
  {
    WireKeepsCells(col);
  }

  lemma SentTwice(sch: Schema, col: Stock)
    requires IsFixed(sch, col) && Sound(col) && !SendPanics(Adapted(sch, col))
    ensures SendPanics(Sent(sch, col)) <==> col.nullable && col.sparse && NullFirst(col)
  {
    WireKeepsCells(col);
    if !col.nullable {
      MadeNullableIsSent(col);
    } else {
      SecondSendPanicsIff(col);
    }
  }

  lemma SentAcceptable(sch: Schema, cols: seq<Stock>)
    requires Acceptable(sch, cols) && forall i :: 0 <= i < |cols| ==> Sound(cols[i])
    ensures Acceptable(sch, SentAll(sch, cols)) && RowSize(SentAll(sch, cols)) == RowSize(cols)
  {
    var sent := SentAll(sch, cols);
    forall i | 0 <= i < |cols|
      ensures sent[i].name == cols[i].name && Len(sent[i]) == Len(cols[i]) && FitsSchema(sch, sent[i])
    {
      if IsFixed(sch, cols[i]) {
        SentColumn(sch, cols[i]);
      }
    }
  }

  /** Columns of no schema field are sent as they are, and stay so. */
  lemma {:induction false} SentOthers(sch: Schema, cols: seq<Stock>)
    ensures OtherColumns(sch, SentAll(sch, cols)) == OtherColumns(sch, cols)
  {
    if cols != [] {
      var front := cols[..|cols|-1];
      SentOthers(sch, front);
      assert SentAll(sch, cols)[..|cols|-1] == SentAll(sch, front);
    }
  }

  /** The column that a second request is built from for a schema field. */
  lemma SentFixed(sch: Schema, cols: seq<Stock>, i: nat)
    requires Acceptable(sch, cols) && Acceptable(sch, SentAll(sch, cols))
    requires i < |cols| && IsFixed(sch, cols[i]) && Sound(cols[i])
    requires !SomeSendPanics(FixedColumns(sch, cols))
    ensures var fixed := FixedColumns(sch, SentAll(sch, cols));
            && cols[i].name in fixed
            && (SendPanics(fixed[cols[i].name]) <==> cols[i].nullable && cols[i].sparse && NullFirst(cols[i]))
  {
    FixedColumnIs(sch, cols, i);
    SentColumn(sch, cols[i]);
    FixedColumnIs(sch, SentAll(sch, cols), i);
    SentTwice(sch, cols[i]);
  }

  /** Every such column is the sent one of a column of its name. */
  lemma FixedSource(sch: Schema, cols: seq<Stock>, name: string) returns (i: nat)
    requires name in FixedColumns(sch, SentAll(sch, cols))
    ensures i < |cols| && IsFixed(sch, cols[i]) && cols[i].name == name
  {
    var sent := SentAll(sch, cols);
    FixedNames(sch, sent, name);
    i :| 0 <= i < |sent| && IsFixed(sch, sent[i]) && sent[i].name == name;
    assert sent[i] == Sent(sch, cols[i]);
  }

  /** Some column of a schema field is sparse and has a null before a valid cell. */
  ghost predicate SomeNullFirst(sch: Schema, cols: seq<Stock>)
    requires forall i :: 0 <= i < |cols| ==> Sound(cols[i])
  {
    exists i :: 0 <= i < |cols| && IsFixed(sch, cols[i]) && cols[i].nullable && cols[i].sparse && NullFirst(cols[i])
  }

  /** Exactly when a request that went through cannot be built a second time from the same columns, as a retry does:
      one of the fixed columns is sparse and has a null before a valid cell. */
  lemma ResendPanicsIff(sch: Schema, cols: seq<Stock>)
    requires Acceptable(sch, cols) && forall i :: 0 <= i < |cols| ==> Sound(cols[i])
    requires !EncodingPanics(sch, cols)
    ensures Acceptable(sch, SentAll(sch, cols))
    ensures EncodingPanics(sch, SentAll(sch, cols)) <==> SomeNullFirst(sch, cols)
  {
    SentAcceptable(sch, cols);
    SentOthers(sch, cols);
    var fixed := FixedColumns(sch, SentAll(sch, cols));
    if SomeSendPanics(fixed) {
      var name :| name in fixed && SendPanics(fixed[name]);
      var i := FixedSource(sch, cols, name);
      SentFixed(sch, cols, i);
    }
    if SomeNullFirst(sch, cols) {
      var i :| 0 <= i < |cols| && IsFixed(sch, cols[i]) && cols[i].nullable && cols[i].sparse && NullFirst(cols[i]);
      SentFixed(sch, cols, i);
      assert SendPanics(fixed[cols[i].name]);
    }
  }
}
