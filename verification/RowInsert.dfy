/** Inserting rows: what becomes of columns that were made from rows. */
module RowInserts {
  import opened Wrappers
  import opened RowColumns
  import opened StoredColumns
  import opened InsertRequests

  /** The column that the appends of the row conversion build. */
  function Appended(col: Column): Stock {
    Built(col.name, col.kind, col.dim, col.nullable, col.cells)
  }

  /** The one dynamic column of a row-based insert: nameless, a JSON record per row. */
  function DynamicColumn(records: seq<Row>): (col: Column)
    ensures (col.name, col.kind, col.nullable) == ("", JSON_KIND, false)
    ensures |col.cells| == |records|
    ensures forall i :: 0 <= i < |records| ==> col.cells[i] == Some(Record(records[i]))
  {
    Column("", JSON_KIND, 0, false, seq(|records|, i requires 0 <= i < |records| => Some(Record(records[i]))))
  }

  /** A list that the conversion may return: its columns by name, each once, in some order, and the dynamic
      column at the end. */
  ghost predicate Lists(c: Columns, cols: seq<Stock>) {
    var n := if c.records.Some? then |cols| - 1 else |cols|;
    && n >= 0
    && (c.records.Some? ==> cols[n] == Appended(DynamicColumn(c.records.value)))
    && (forall i :: 0 <= i < n ==> cols[i].name in c.named && cols[i] == Appended(c.named[cols[i].name]))
    && (forall i, j :: 0 <= i < j < n ==> cols[i].name != cols[j].name)
    && (forall name :: name in c.named ==> exists i :: 0 <= i < n && cols[i].name == name)
  }

  /** Rows that the conversion accepts. */
  ghost predicate RowsFit(sch: Schema, keepPk: bool, rows: seq<Row>) {
    forall i :: 0 <= i < |rows| ==> RowFits(sch, keepPk, rows[i]) && RowSupported(sch, keepPk, rows[i])
  }

  /** Every field that has a column is in all rows. */
  ghost predicate Uniform(sch: Schema, keepPk: bool, rows: seq<Row>) {
    forall name :: name in NamedColumns(sch, keepPk, rows) ==> Everywhere(rows, name)
  }

  /** Every field that has a column gets one of the type and dimension that a request asks for. */
  ghost predicate AllMatch(sch: Schema, keepPk: bool, rows: seq<Row>) {
    forall name :: name in NamedColumns(sch, keepPk, rows) ==> Matches(FieldOf(sch.fields, name))
  }

  /** It does unless the field is a string field, whose column is a varchar column, or its dimension parameter is not a
      plain decimal. */
  predicate Matches(f: Option<Field>) {
    f.Some? ==> f.value.kind != STRING_KIND && (f.value.dim.Some? ==> f.value.dim.value.plain)
  }

  lemma {:induction false} NoNullCells(sch: Schema, keepPk: bool, rows: seq<Row>, name: string)
    requires RowsFit(sch, keepPk, rows) && Stored(sch, keepPk, name)
    ensures var f := FieldOf(sch.fields, name).value;
            (f.nullable && ColumnKind(f.kind) < FIRST_VECTOR_KIND) || NoNulls(CellsOf(rows, name))
  {
    if rows != [] {
      NoNullCells(sch, keepPk, rows[..|rows|-1], name);
      var last := rows[|rows|-1];
      assert name in last ==>
          !Misfits(sch, keepPk, name, last[name]) && !Breaks(sch, keepPk, name, last[name]);
    }
  }

  /** The columns of accepted rows stand for the cells they were made from, and are compact. */
  lemma NamedColumnSound(sch: Schema, keepPk: bool, rows: seq<Row>, name: string)
    requires RowsFit(sch, keepPk, rows) && name in NamedColumns(sch, keepPk, rows)
    ensures var col := NamedColumns(sch, keepPk, rows)[name];
            && Sound(Appended(col)) && Cells(Appended(col)) == col.cells && !Appended(col).sparse
            && col.name == name && |col.cells| == Having(rows, name) && col.cells == CellsOf(rows, name)
  {
    NamedColumnIs(sch, keepPk, rows, name);
    NoNullCells(sch, keepPk, rows, name);
    var col := NamedColumns(sch, keepPk, rows)[name];
    BuiltIs(col.name, col.kind, col.dim, col.nullable, col.cells);
  }

  lemma DynamicColumnSound(records: seq<Row>)
    ensures var col := Appended(DynamicColumn(records));
            Sound(col) && Cells(col) == DynamicColumn(records).cells && !col.nullable && Len(col) == |records|
  {
    var col := DynamicColumn(records);
    BuiltIs(col.name, col.kind, col.dim, col.nullable, col.cells);
  }

  lemma ListedSound(sch: Schema, keepPk: bool, rows: seq<Row>, cols: seq<Stock>, i: nat)
    requires RowsFit(sch, keepPk, rows) && Lists(ColumnsOf(sch, keepPk, rows), cols) && i < |cols|
    ensures Sound(cols[i]) && !cols[i].sparse
    ensures sch.dynamic && i == |cols| - 1 ==>
              && !cols[i].nullable && cols[i].name == ""
              && Cells(cols[i]) == DynamicColumn(Records(sch, keepPk, rows)).cells
    ensures !(sch.dynamic && i == |cols| - 1) ==>
              && cols[i].name in NamedColumns(sch, keepPk, rows)
              && Stored(sch, keepPk, cols[i].name)
              && Cells(cols[i]) == CellsOf(rows, cols[i].name)
  {
    if sch.dynamic && i == |cols| - 1 {
      DynamicColumnSound(Records(sch, keepPk, rows));
    } else {
      NamedColumnIs(sch, keepPk, rows, cols[i].name);
      NamedColumnSound(sch, keepPk, rows, cols[i].name);
    }
  }

  /** Of columns made from rows only the sizes can be refused, the varchar columns of string fields, and vector
      dimensions that are not written as plain decimals. Encoding them never panics. */
  lemma RowInsertAcceptedIff(sch: Schema, keepPk: bool, rows: seq<Row>, cols: seq<Stock>)
    requires FieldOf(sch.fields, "").None? && RowsFit(sch, keepPk, rows)
    requires Lists(ColumnsOf(sch, keepPk, rows), cols)
    ensures Acceptable(sch, cols) <==> SizesAgree(cols) && AllMatch(sch, keepPk, rows)
    ensures Acceptable(sch, cols) ==> !EncodingPanics(sch, cols)
  {
    forall i | 0 <= i < |cols|
      ensures FitsSchema(sch, cols[i]) <==> Matches(FieldOf(sch.fields, cols[i].name))
    {
      ListedFits(sch, keepPk, rows, cols, i);
    }
    forall i, j | 0 <= i < j < |cols| && IsFixed(sch, cols[i])
      ensures cols[i].name != cols[j].name
    {
      ListedSound(sch, keepPk, rows, cols, j);
    }
    ListedDims(sch, keepPk, rows, cols);
    if Acceptable(sch, cols) {
      RowInsertNeverPanics(sch, keepPk, rows, cols);
    }
  }

  lemma ListedFits(sch: Schema, keepPk: bool, rows: seq<Row>, cols: seq<Stock>, i: nat)
    requires FieldOf(sch.fields, "").None? && i < |cols|
    requires Lists(ColumnsOf(sch, keepPk, rows), cols)
    ensures FitsSchema(sch, cols[i]) <==> Matches(FieldOf(sch.fields, cols[i].name))
  {
    NamedColumnIs(sch, keepPk, rows, cols[i].name);
  }

  lemma ListedDims(sch: Schema, keepPk: bool, rows: seq<Row>, cols: seq<Stock>)
    requires FieldOf(sch.fields, "").None?
    requires Lists(ColumnsOf(sch, keepPk, rows), cols)
    ensures AllMatch(sch, keepPk, rows)
            <==> forall i :: 0 <= i < |cols| ==> Matches(FieldOf(sch.fields, cols[i].name))
  {
    if forall i :: 0 <= i < |cols| ==> Matches(FieldOf(sch.fields, cols[i].name)) {
      forall name | name in NamedColumns(sch, keepPk, rows)
        ensures Matches(FieldOf(sch.fields, name))
      {
        var i :| 0 <= i < |cols| && cols[i].name == name;
      }
    }
  }

  lemma RowInsertNeverPanics(sch: Schema, keepPk: bool, rows: seq<Row>, cols: seq<Stock>)
    requires FieldOf(sch.fields, "").None? && RowsFit(sch, keepPk, rows)
    requires Lists(ColumnsOf(sch, keepPk, rows), cols) && Acceptable(sch, cols)
    ensures !EncodingPanics(sch, cols)
  {
    forall name | name in FixedColumns(sch, cols)
      ensures !SendPanics(FixedColumns(sch, cols)[name])
    {
      FixedIsSent(sch, keepPk, rows, cols, name);
    }
    OtherColumnsAre(sch, keepPk, rows, cols);
    if sch.dynamic {
      DynamicNeverPanics(Records(sch, keepPk, rows));
    }
  }

  /** A listed sparse-vector column has a value. */
  lemma ListedIsSent(sch: Schema, keepPk: bool, rows: seq<Row>, cols: seq<Stock>, i: nat)
    requires RowsFit(sch, keepPk, rows) && Lists(ColumnsOf(sch, keepPk, rows), cols) && i < |cols|
    ensures Sound(cols[i]) && !SendPanics(cols[i])
  {
    ListedSound(sch, keepPk, rows, cols, i);
    SendPanicsIff(cols[i]);
    if cols[i].kind == SPARSE_VECTOR_KIND {
      var name := cols[i].name;
      NamedColumnIs(sch, keepPk, rows, name);
      NoNullCells(sch, keepPk, rows, name);
      assert Cells(cols[i])[0].Some?;
    }
  }

  lemma FixedIsSent(sch: Schema, keepPk: bool, rows: seq<Row>, cols: seq<Stock>, name: string)
    requires RowsFit(sch, keepPk, rows) && name in FixedColumns(sch, cols)
    requires Lists(ColumnsOf(sch, keepPk, rows), cols) && FixedNamesDistinct(sch, cols)
    ensures !SendPanics(FixedColumns(sch, cols)[name])
  {
    FixedNames(sch, cols, name);
    var i :| 0 <= i < |cols| && IsFixed(sch, cols[i]) && cols[i].name == name;
    FixedColumnIs(sch, cols, i);
    ListedIsSent(sch, keepPk, rows, cols, i);
    if !cols[i].nullable {
      MadeNullableIsSent(cols[i]);
    }
  }

  lemma DynamicNeverPanics(records: seq<Row>)
    ensures forall i: nat :: !ReadPanics([Appended(DynamicColumn(records))], i)
  {
    forall i: nat
      ensures !ReadPanics([Appended(DynamicColumn(records))], i)
    {
      DynamicColumnSound(records);
      ReadIsTheCellIff(Appended(DynamicColumn(records)), i);
    }
  }

  /** Of columns made from rows only the dynamic one is not of a schema field. */
  lemma OtherColumnsAre(sch: Schema, keepPk: bool, rows: seq<Row>, cols: seq<Stock>)
    requires FieldOf(sch.fields, "").None?
    requires Lists(ColumnsOf(sch, keepPk, rows), cols)
    ensures OtherColumns(sch, cols) == if sch.dynamic then [cols[|cols|-1]] else []
  {
    var n := if sch.dynamic then |cols| - 1 else |cols|;
    forall j | 0 <= j < n
      ensures IsFixed(sch, cols[j])
    {
      NamedColumnIs(sch, keepPk, rows, cols[j].name);
    }
    OtherNone(sch, cols[..n]);
    assert cols[..|cols|] == cols;
  }

  lemma {:induction false} OtherNone(sch: Schema, cols: seq<Stock>)
    requires forall j :: 0 <= j < |cols| ==> IsFixed(sch, cols[j])
    ensures OtherColumns(sch, cols) == []
  {
    if cols != [] {
      OtherNone(sch, cols[..|cols|-1]);
    }
  }

  /** How many cells the listed columns have. */
  lemma ListedLengths(sch: Schema, keepPk: bool, rows: seq<Row>, cols: seq<Stock>)
    requires RowsFit(sch, keepPk, rows) && Lists(ColumnsOf(sch, keepPk, rows), cols)
    ensures sch.dynamic ==> Len(cols[|cols|-1]) == |rows|
    ensures forall i :: 0 <= i < (if sch.dynamic then |cols| - 1 else |cols|) ==>
              Len(cols[i]) == Having(rows, cols[i].name) > 0
  {
    var n := if sch.dynamic then |cols| - 1 else |cols|;
    forall i | 0 <= i < n
      ensures Len(cols[i]) == Having(rows, cols[i].name) > 0
    {
      ListedSound(sch, keepPk, rows, cols, i);
      NamedColumnIs(sch, keepPk, rows, cols[i].name);
    }
    if sch.dynamic {
      DynamicColumnSound(Records(sch, keepPk, rows));
    }
  }

  lemma SizesGiveUniform(sch: Schema, keepPk: bool, rows: seq<Row>, cols: seq<Stock>)
    requires FieldOf(sch.fields, "").None? && RowsFit(sch, keepPk, rows)
    requires Lists(ColumnsOf(sch, keepPk, rows), cols)
    requires SizesAgree(cols) && RowSize(cols) == |rows|
    ensures Uniform(sch, keepPk, rows)
  {
    SizesOf(cols);
    ListedLengths(sch, keepPk, rows, cols);
    forall name | name in NamedColumns(sch, keepPk, rows)
      ensures Everywhere(rows, name)
    {
      var i :| 0 <= i < |cols| && cols[i].name == name;
      ListedName(sch, keepPk, rows, cols, i);
      HavingAll(rows, name);
    }
  }

  lemma UniformGivesSizes(sch: Schema, keepPk: bool, rows: seq<Row>, cols: seq<Stock>)
    requires FieldOf(sch.fields, "").None? && RowsFit(sch, keepPk, rows)
    requires Lists(ColumnsOf(sch, keepPk, rows), cols)
    requires Uniform(sch, keepPk, rows)
    ensures forall i :: 0 <= i < |cols| ==> Len(cols[i]) == |rows|
  {
    ListedLengths(sch, keepPk, rows, cols);
    forall i | 0 <= i < |cols|
      ensures Len(cols[i]) == |rows|
    {
      HavingAll(rows, cols[i].name);
    }
  }

  lemma SomeListed(sch: Schema, keepPk: bool, rows: seq<Row>, cols: seq<Stock>)
    requires Lists(ColumnsOf(sch, keepPk, rows), cols)
    ensures cols != [] <==> sch.dynamic || NamedColumns(sch, keepPk, rows).Keys != {}
  {
    if !sch.dynamic {
      if cols != [] {
        assert cols[0].name in NamedColumns(sch, keepPk, rows);
      }
      if name :| name in NamedColumns(sch, keepPk, rows) {
        var i :| 0 <= i < |cols| && cols[i].name == name;
      }
    }
  }

  /** MAIN RESULT: a row-based insert is accepted with as many rows as were given if and only if every field that
      has a column is in all rows and gets a column of its type and dimension, and, without a dynamic column to count
      the rows, some field has a column. */
  lemma RowInsertKeepsRowsIff(sch: Schema, keepPk: bool, rows: seq<Row>, cols: seq<Stock>)
    requires rows != [] && FieldOf(sch.fields, "").None? && RowsFit(sch, keepPk, rows)
    requires Lists(ColumnsOf(sch, keepPk, rows), cols)
    ensures Acceptable(sch, cols) && RowSize(cols) == |rows|
            <==> && Uniform(sch, keepPk, rows) && AllMatch(sch, keepPk, rows)
                 && (sch.dynamic || NamedColumns(sch, keepPk, rows).Keys != {})
  {
    RowInsertAcceptedIff(sch, keepPk, rows, cols);
    SomeListed(sch, keepPk, rows, cols);
    if SizesAgree(cols) && RowSize(cols) == |rows| {
      SizesGiveUniform(sch, keepPk, rows, cols);
    }
    if Uniform(sch, keepPk, rows) {
      UniformGivesSizes(sch, keepPk, rows, cols);
    }
  }

  /** A listed column with the name of a stored field is not the dynamic one. */
  lemma ListedName(sch: Schema, keepPk: bool, rows: seq<Row>, cols: seq<Stock>, i: nat)
    requires FieldOf(sch.fields, "").None? && i < |cols|
    requires Lists(ColumnsOf(sch, keepPk, rows), cols) && cols[i].name in NamedColumns(sch, keepPk, rows)
    ensures !(sch.dynamic && i == |cols| - 1)
  {
    NamedColumnIs(sch, keepPk, rows, cols[i].name);
  }

  /** If every field that has a column is in n rows, the row size is n. */
  lemma SizesAreHavings(sch: Schema, keepPk: bool, rows: seq<Row>, cols: seq<Stock>, n: nat)
    requires !sch.dynamic && RowsFit(sch, keepPk, rows) && Lists(ColumnsOf(sch, keepPk, rows), cols)
    requires NamedColumns(sch, keepPk, rows).Keys != {}
    requires forall name :: name in NamedColumns(sch, keepPk, rows) ==> Having(rows, name) == n
    ensures SizesAgree(cols) && RowSize(cols) == n
  {
    SomeListed(sch, keepPk, rows, cols);
    ListedLengths(sch, keepPk, rows, cols);
    AllOfOneSize(cols, n);
  }

  lemma AllOfOneSize(cols: seq<Stock>, n: nat)
    requires cols != [] && forall i :: 0 <= i < |cols| ==> Len(cols[i]) == n
    ensures SizesAgree(cols) && RowSize(cols) == n
  {
  }

  /** Without a dynamic column nobody counts the rows: two rows with one stored field each, a different one, are
      accepted as a single row that mixes their values. */
  lemma MixedRowsAccepted(sch: Schema, keepPk: bool, x: Row, y: Row, a: string, b: string, cols: seq<Stock>)
    requires !sch.dynamic && FieldOf(sch.fields, "").None? && RowsFit(sch, keepPk, [x, y])
    requires a != b && Stored(sch, keepPk, a) && Stored(sch, keepPk, b)
    requires Matches(FieldOf(sch.fields, a)) && Matches(FieldOf(sch.fields, b))
    requires x.Keys == {a} && y.Keys == {b}
    requires Lists(ColumnsOf(sch, keepPk, [x, y]), cols)
    ensures Acceptable(sch, cols) && RowSize(cols) == 1
  {
    MixedColumns(sch, keepPk, x, y, a, b);
    var rows := [x, y];
    SizesAreHavings(sch, keepPk, rows, cols, 1);
    RowInsertAcceptedIff(sch, keepPk, rows, cols);
  }

  lemma MixedColumns(sch: Schema, keepPk: bool, x: Row, y: Row, a: string, b: string)
    requires a != b && Stored(sch, keepPk, a) && Stored(sch, keepPk, b)
    requires Matches(FieldOf(sch.fields, a)) && Matches(FieldOf(sch.fields, b))
    requires x.Keys == {a} && y.Keys == {b}
    ensures NamedColumns(sch, keepPk, [x, y]).Keys != {} && AllMatch(sch, keepPk, [x, y])
    ensures forall name :: name in NamedColumns(sch, keepPk, [x, y]) ==> Having([x, y], name) == 1
  {
    forall name
      ensures name in NamedColumns(sch, keepPk, [x, y]) <==> name == a || name == b
      ensures name in NamedColumns(sch, keepPk, [x, y]) ==> Having([x, y], name) == 1
    {
      NamedColumnIs(sch, keepPk, [x, y], name);
      HavingTwo(x, y, name);
    }
    assert a in NamedColumns(sch, keepPk, [x, y]);
  }

  lemma HavingTwo(x: Row, y: Row, name: string)
    ensures Having([x, y], name) == (if name in x then 1 else 0) + (if name in y then 1 else 0)
  {
    assert [x, y][..1] == [x] && [x][..0] == [];
  }

  /** The left-over fields of row i reach the server as one value under the empty name, not as fields of their
      own. */
  lemma LeftOversAreNested(sch: Schema, keepPk: bool, rows: seq<Row>, cols: seq<Stock>, i: nat)
    requires sch.dynamic && FieldOf(sch.fields, "").None? && i < |rows|
    requires Lists(ColumnsOf(sch, keepPk, rows), cols)
    ensures MergedAt(OtherColumns(sch, cols), i) == map["" := Some(Record(LeftOver(sch, keepPk, rows[i])))]
  {
    OtherColumnsAre(sch, keepPk, rows, cols);
    DynamicColumnSound(Records(sch, keepPk, rows));
    var col := cols[|cols|-1];
    ReadIsTheCellIff(col, i);
    assert [col][..0] == [];
    assert MergedAt([col], i) == map[][col.name := CellAt(col, i)];
  }
}
