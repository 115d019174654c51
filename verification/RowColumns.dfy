/** Row-based inserts: rows become columns plus one record of left-over fields per row, and the columns
    become an insert request. Columns stand for their logical cells here. */
module RowColumns {
  import opened Wrappers

  datatype Scalar = Scalar(kind: nat, data: int)

  /** The fields of one row; None is a nil value. */
  type Row = map<string, Option<Scalar>>

  /** A row is a struct or a map, or something that cannot be a row. */
  datatype RowInput = Fields(row: Row) | NoRow

  /** Whether a column can be created for a field: it can, creating it gives an error, for want of a dimension say, or
      the field's type is unknown and no column comes back, which is only noticed when it is used. */
  datatype Creation = Creatable | Refused | NoColumn

  /** A vector field's dimension parameter: its number, and whether it is written as that number's plain decimal. */
  datatype Dim = Dim(value: int, plain: bool)

  /** A schema field; only vector fields have a dimension. */
  datatype Field = Field(name: string, kind: nat, primaryKey: bool, autoID: bool, nullable: bool, creation: Creation,
                         dim: Option<Dim>)

  datatype Schema = Schema(fields: seq<Field>, dynamic: bool)

  /** A stored value: a scalar, or the record of left-over fields of one row. */
  datatype Payload = Plain(value: Scalar) | Record(fields: Row)

  datatype Column = Column(name: string, kind: nat, dim: int, nullable: bool, cells: seq<Option<Payload>>)

  /** The kind of the column that is created for a field: a string field gets a varchar column. */
  function ColumnKind(kind: nat): nat {
    if kind == STRING_KIND then VARCHAR_KIND else kind
  }

  /** The columns of a set of rows, by field name, and the records of a dynamic schema. */
  datatype Columns = Columns(named: map<string, Column>, records: Option<seq<Row>>)

  /** The schema's field of that name; a later field of the same name replaces an earlier one. */
  function FieldOf(fields: seq<Field>, name: string): (f: Option<Field>)
    ensures f.Some? ==> f.value.name == name && f.value in fields
  {
    if fields == [] then None
    else if fields[|fields|-1].name == name then Some(fields[|fields|-1])
    else FieldOf(fields[..|fields|-1], name)
  }

  lemma {:induction false} FieldOfIs(fields: seq<Field>, name: string, i: nat)
    requires i < |fields| && fields[i].name == name && forall j :: i < j < |fields| ==> fields[j].name != name
    ensures FieldOf(fields, name) == Some(fields[i])
  {
    var n := |fields| - 1;
    if i < n {
      assert fields[n].name != name;
      FieldOfIs(fields[..n], name, i);
    }
  }

  function CellOf(v: Option<Scalar>): Option<Payload> {
    if v.Some? then Some(Plain(v.value)) else None
  }

  /** A value needs a column of its kind. A null needs a nullable scalar column: a vector column refuses it all the
      same, and a JSON column panics over it. */
  function AppendValue(col: Column, v: Option<Scalar>): Result<Column> {
    if v.None? && col.kind == JSON_KIND then Panic
    else if (if v.None? then col.nullable && col.kind < FIRST_VECTOR_KIND else v.value.kind == col.kind)
    then Ok(col.(cells := col.cells + [CellOf(v)]))
    else Err
  }

  function EmptyColumn(f: Field): Column {
    Column(f.name, ColumnKind(f.kind), if f.dim.Some? then f.dim.value.value else 0, f.nullable, [])
  }

  // ----- What becomes of a field -----

  /** An auto-ID primary key that is not kept. */
  predicate Dropped(sch: Schema, keepPk: bool, name: string) {
    var f := FieldOf(sch.fields, name);
    f.Some? && f.value.primaryKey && f.value.autoID && !keepPk
  }

  /** A field that has a column. */
  predicate Stored(sch: Schema, keepPk: bool, name: string) {
    var f := FieldOf(sch.fields, name);
    f.Some? && f.value.creation.Creatable? && !Dropped(sch, keepPk, name)
  }

  /** A field that no column comes back for. */
  predicate Unsupported(sch: Schema, keepPk: bool, name: string) {
    var f := FieldOf(sch.fields, name);
    f.Some? && f.value.creation.NoColumn? && !Dropped(sch, keepPk, name)
  }

  /** What appending the value to the field's column comes to. */
  function Appending(sch: Schema, name: string, v: Option<Scalar>): Result<Column>
    requires FieldOf(sch.fields, name).Some?
  {
    AppendValue(EmptyColumn(FieldOf(sch.fields, name).value), v)
  }

  /** The field's column does not take the value. */
  predicate Misfits(sch: Schema, keepPk: bool, name: string, v: Option<Scalar>) {
    Stored(sch, keepPk, name) && Appending(sch, name, v).Err?
  }

  /** The field has no column that could be used, or the value breaks it. */
  predicate Breaks(sch: Schema, keepPk: bool, name: string, v: Option<Scalar>) {
    Unsupported(sch, keepPk, name) || (Stored(sch, keepPk, name) && Appending(sch, name, v).Panic?)
  }

  predicate RowFits(sch: Schema, keepPk: bool, row: Row) {
    forall name :: name in row ==> !Misfits(sch, keepPk, name, row[name])
  }

  predicate RowSupported(sch: Schema, keepPk: bool, row: Row) {
    forall name :: name in row ==> !Breaks(sch, keepPk, name, row[name])
  }

  /** The cells of a column: one for each row that has the field, in row order. */
  function CellsOf(rows: seq<Row>, name: string): (cells: seq<Option<Payload>>)
    ensures |cells| == Having(rows, name)
  {
    if rows == [] then []
    else
      var last := rows[|rows|-1];
      CellsOf(rows[..|rows|-1], name) + (if name in last then [CellOf(last[name])] else [])
  }

  function Having(rows: seq<Row>, name: string): (n: nat)
    ensures n <= |rows|
  {
    if rows == [] then 0
    else Having(rows[..|rows|-1], name) + (if name in rows[|rows|-1] then 1 else 0)
  }

  /** Appends the stored fields of one row to their columns, which are created where they are missing. */
  function Extend(sch: Schema, keepPk: bool, cols: map<string, Column>, row: Row): map<string, Column> {
    map name | name in cols.Keys + StoredFields(sch, keepPk, row) :: Extended(sch, keepPk, cols, row, name)
  }

  function StoredFields(sch: Schema, keepPk: bool, row: Row): set<string> {
    set name | name in row && Stored(sch, keepPk, name)
  }

  function Extended(sch: Schema, keepPk: bool, cols: map<string, Column>, row: Row, name: string): Column
    requires name in cols || Stored(sch, keepPk, name)
  {
    var col := Current(sch, cols, name);
    if name in row && Stored(sch, keepPk, name) then col.(cells := col.cells + [CellOf(row[name])]) else col
  }

  /** The column of a field, which is created where it is missing. */
  function Current(sch: Schema, cols: map<string, Column>, name: string): Column
    requires name in cols || FieldOf(sch.fields, name).Some?
  {
    if name in cols then cols[name] else EmptyColumn(FieldOf(sch.fields, name).value)
  }

  function NamedColumns(sch: Schema, keepPk: bool, rows: seq<Row>): map<string, Column> {
    if rows == [] then map[]
    else Extend(sch, keepPk, NamedColumns(sch, keepPk, rows[..|rows|-1]), rows[|rows|-1])
  }

  /** The fields of a row that neither have a column nor are dropped. */
  function LeftOver(sch: Schema, keepPk: bool, row: Row): Row {
    map name | name in row && !Stored(sch, keepPk, name) && !Dropped(sch, keepPk, name) :: row[name]
  }

  function Records(sch: Schema, keepPk: bool, rows: seq<Row>): (records: seq<Row>)
    ensures |records| == |rows|
    ensures forall i :: 0 <= i < |rows| ==> records[i] == LeftOver(sch, keepPk, rows[i])
  {
    seq(|rows|, i requires 0 <= i < |rows| => LeftOver(sch, keepPk, rows[i]))
  }

  function RowsOf(inputs: seq<RowInput>): (rows: seq<Row>)
    requires forall i :: 0 <= i < |inputs| ==> inputs[i].Fields?
    ensures |rows| == |inputs|
    ensures forall i :: 0 <= i < |rows| ==> rows[i] == inputs[i].row
  {
    seq(|inputs|, i requires 0 <= i < |inputs| => inputs[i].row)
  }

  predicate Convertible(sch: Schema, keepPk: bool, inputs: seq<RowInput>) {
    && inputs != []
    && forall i :: 0 <= i < |inputs| ==> inputs[i].Fields? && RowFits(sch, keepPk, inputs[i].row)
                                         && RowSupported(sch, keepPk, inputs[i].row)
  }

  // ----- Adding one field -----

  function Part(row: Row, names: set<string>): Row {
    map name | name in row && name in names :: row[name]
  }

  /** Taking one more stored field of the current row appends its value to its column and touches no other. */
  lemma StoreField(sch: Schema, keepPk: bool, cols: map<string, Column>, row: Row, names: set<string>, f: string)
    requires f in row && f !in names && Stored(sch, keepPk, f)
    ensures var before := Extend(sch, keepPk, cols, Part(row, names));
            var col := Current(sch, before, f);
            Extend(sch, keepPk, cols, Part(row, names + {f}))
            == before[f := col.(cells := col.cells + [CellOf(row[f])])]
  {
    assert StoredFields(sch, keepPk, Part(row, names + {f})) == StoredFields(sch, keepPk, Part(row, names)) + {f};
  }

  /** A field that has no column changes no column. */
  lemma SkipField(sch: Schema, keepPk: bool, cols: map<string, Column>, row: Row, names: set<string>, f: string)
    requires !Stored(sch, keepPk, f)
    ensures Extend(sch, keepPk, cols, Part(row, names + {f})) == Extend(sch, keepPk, cols, Part(row, names))
  {
    var before, after := Part(row, names), Part(row, names + {f});
    assert StoredFields(sch, keepPk, after) == StoredFields(sch, keepPk, before);
    forall name | name in cols.Keys + StoredFields(sch, keepPk, before)
      ensures Extended(sch, keepPk, cols, after, name) == Extended(sch, keepPk, cols, before, name)
    {
    }
  }

  /** What is left of a row after the given fields have been sorted. */
  function Left(sch: Schema, keepPk: bool, row: Row, names: set<string>): Row {
    map name | name in row && !(name in names && (Stored(sch, keepPk, name) || Dropped(sch, keepPk, name))) :: row[name]
  }

  lemma LeftNext(sch: Schema, keepPk: bool, row: Row, names: set<string>, f: string)
    ensures Left(sch, keepPk, row, names + {f})
            == if Stored(sch, keepPk, f) || Dropped(sch, keepPk, f) then Left(sch, keepPk, row, names) - {f}
               else Left(sch, keepPk, row, names)
    ensures Left(sch, keepPk, row, row.Keys) == LeftOver(sch, keepPk, row)
    ensures Left(sch, keepPk, row, {}) == row
  {
  }

  /** The column of every field has the schema's kind and nullability. */
  ghost predicate Typed(sch: Schema, keepPk: bool, cols: map<string, Column>) {
    forall name :: name in cols ==>
      && Stored(sch, keepPk, name)
      && cols[name] == EmptyColumn(FieldOf(sch.fields, name).value).(cells := cols[name].cells)
  }

  lemma ExtendTyped(sch: Schema, keepPk: bool, cols: map<string, Column>, row: Row)
    requires Typed(sch, keepPk, cols)
    ensures Typed(sch, keepPk, Extend(sch, keepPk, cols, row))
  {
  }

  /** One field of a row: skipped if it is an auto-ID key, appended to its column if it has one, else left. Using a
      column that did not come back panics, and so does a nil value for a JSON column. */
  method AddField(sch: Schema, keepPk: bool, cols: map<string, Column>, left: Row, f: string, v: Option<Scalar>)
    returns (r: Result<(map<string, Column>, Row)>)
    requires Typed(sch, keepPk, cols)
    ensures r.Err? <==> Misfits(sch, keepPk, f, v)
    ensures r.Panic? <==> Breaks(sch, keepPk, f, v)
    ensures var field := FieldOf(sch.fields, f);
            var key := field.Some? && field.value.primaryKey && field.value.autoID && !keepPk;
            && (key ==> r == Ok((cols, left - {f})))
            && (!key && (field.None? || field.value.creation.Refused?) ==> r == Ok((cols, left)))
            && (!key && field.Some? && field.value.creation.NoColumn? ==> r == Panic)
            && (!key && field.Some? && field.value.creation.Creatable? ==>
                  if v.Some? then r.Err? <==> v.value.kind != (if field.value.kind == STRING_KIND then VARCHAR_KIND
                                                               else field.value.kind)
                  else if field.value.kind == JSON_KIND then r.Panic?
                  else r.Err? <==> !field.value.nullable || field.value.kind >= FIRST_VECTOR_KIND)
    ensures r.Ok? && Stored(sch, keepPk, f) ==>
              var col := Current(sch, cols, f);
              r.value == (cols[f := col.(cells := col.cells + [CellOf(v)])], left - {f})
    ensures r.Ok? && Dropped(sch, keepPk, f) ==> r.value == (cols, left - {f})
    ensures r.Ok? && !Stored(sch, keepPk, f) && !Dropped(sch, keepPk, f) ==> r.value == (cols, left)
  {
    var field := FieldOf(sch.fields, f);
    if field.Some? && field.value.primaryKey && field.value.autoID && !keepPk {
      return Ok((cols, left - {f}));
    }
    var col;
    if f in cols {
      col := cols[f];
    } else if field.Some? && field.value.creation.NoColumn? {
      return Panic;
    } else if field.Some? && field.value.creation.Creatable? {
      col := EmptyColumn(field.value);
    } else {
      return Ok((cols, left));
    }
    var appended := AppendValue(col, v);
    if !appended.Ok? {
      return if appended.Err? then Err else Panic;
    }
    r := Ok((cols[f := appended.value], left - {f}));
  }

  ghost predicate FitAmong(sch: Schema, keepPk: bool, row: Row, names: set<string>) {
    forall name :: name in row && name in names ==>
      !Misfits(sch, keepPk, name, row[name]) && !Breaks(sch, keepPk, name, row[name])
  }

  /** One more field of the row is sorted: the columns and what is left are those for one more name. */
  method SortField(sch: Schema, keepPk: bool, ghost cols: map<string, Column>, row: Row, ghost done: set<string>,
                   out: map<string, Column>, left: Row, f: string)
    returns (r: Result<(map<string, Column>, Row)>)
    requires Typed(sch, keepPk, cols) && f in row && f !in done
    requires out == Extend(sch, keepPk, cols, Part(row, done)) && left == Left(sch, keepPk, row, done)
    ensures r.Err? <==> Misfits(sch, keepPk, f, row[f])
    ensures r.Panic? <==> Breaks(sch, keepPk, f, row[f])
    ensures r.Ok? ==> r.value == (Extend(sch, keepPk, cols, Part(row, done + {f})), Left(sch, keepPk, row, done + {f}))
  {
    ExtendTyped(sch, keepPk, cols, Part(row, done));
    LeftNext(sch, keepPk, row, done, f);
    if Stored(sch, keepPk, f) {
      StoreField(sch, keepPk, cols, row, done, f);
    } else {
      SkipField(sch, keepPk, cols, row, done, f);
    }
    r := AddField(sch, keepPk, out, left, f, row[f]);
  }

  lemma NothingSorted(sch: Schema, keepPk: bool, cols: map<string, Column>, row: Row)
    ensures Extend(sch, keepPk, cols, Part(row, {})) == cols && Left(sch, keepPk, row, {}) == row
  {
    LeftNext(sch, keepPk, row, {}, []);
  }

  lemma AllSorted(sch: Schema, keepPk: bool, row: Row)
    ensures Part(row, row.Keys) == row && Left(sch, keepPk, row, row.Keys) == LeftOver(sch, keepPk, row)
  {
    LeftNext(sch, keepPk, row, {}, []);
  }

  /** Sorts the fields of one row into columns and left-overs. The order in which the fields come up, which Go
      leaves open, does not show in the result; only whether a row with both kinds of trouble fails or panics. */
  method AddRow(sch: Schema, keepPk: bool, cols: map<string, Column>, row: Row)
    returns (r: Result<(map<string, Column>, Row)>)
    requires Typed(sch, keepPk, cols)
    ensures r.Ok? <==> RowFits(sch, keepPk, row) && RowSupported(sch, keepPk, row)
    ensures r.Err? ==> !RowFits(sch, keepPk, row)
    ensures r.Panic? ==> !RowSupported(sch, keepPk, row)
    ensures r.Ok? ==> r.value == (Extend(sch, keepPk, cols, row), LeftOver(sch, keepPk, row))
  {
    var out, left, pending := cols, row, row.Keys;
    ghost var done: set<string> := {};
    NothingSorted(sch, keepPk, cols, row);
    while pending != {}
      invariant pending <= row.Keys && done == row.Keys - pending
      invariant out == Extend(sch, keepPk, cols, Part(row, done))
      invariant left == Left(sch, keepPk, row, done)
      invariant FitAmong(sch, keepPk, row, done)
      decreases pending
    {
      var f :| f in pending;
      var sorted := SortField(sch, keepPk, cols, row, done, out, left, f);
      if !sorted.Ok? {
        return if sorted.Err? then Err else Panic;
      }
      out, left := sorted.value.0, sorted.value.1;
      pending := pending - {f};
      done := done + {f};
    }
    assert done == row.Keys;
    AllSorted(sch, keepPk, row);
    r := Ok((out, left));
  }

  /** Rows to columns, and one record of left-over fields per row if the schema is dynamic. It succeeds exactly if
      there is a row and a schema, and every row is one whose stored fields fit their columns. */
  method AnyToColumns(inputs: seq<RowInput>, keepPk: bool, given: Option<Schema>, parsed: Option<Schema>)
    returns (r: Result<Columns>)
    ensures var sch := if given.Some? then given else parsed;
            && (r.Ok? <==> sch.Some? && Convertible(sch.value, keepPk, inputs))
            && (r.Ok? ==> r.value == ColumnsOf(sch.value, keepPk, RowsOf(inputs)))
            && (r.Panic? ==>
                  sch.Some? && exists i :: 0 <= i < |inputs| && inputs[i].Fields?
                                           && !RowSupported(sch.value, keepPk, inputs[i].row))
            && (r.Err? && inputs != [] && sch.Some? ==>
                  exists i :: 0 <= i < |inputs| && (inputs[i].NoRow? || !RowFits(sch.value, keepPk, inputs[i].row)))
  {
    var schema := given;
    if given.None? {
      schema := parsed;
    }
    if |inputs| == 0 || schema.None? {
      return Err;
    }
    var sch := schema.value;
    var cols: map<string, Column> := map[];
    var records: seq<Row> := [];
    ghost var rows: seq<Row> := [];
    for i := 0 to |inputs|
      invariant |rows| == i
      invariant forall j :: 0 <= j < i ==> inputs[j] == Fields(rows[j]) && RowFits(sch, keepPk, inputs[j].row)
                                           && RowSupported(sch, keepPk, inputs[j].row)
      invariant cols == NamedColumns(sch, keepPk, rows)
      invariant records == if sch.dynamic then Records(sch, keepPk, rows) else []
    {
      if inputs[i].NoRow? {
        return Err;
      }
      NamedColumnsTyped(sch, keepPk, rows);
      var added := AddRow(sch, keepPk, cols, inputs[i].row);
      if !added.Ok? {
        return if added.Err? then Err else Panic;
      }
      NamedColumnsNext(sch, keepPk, rows, inputs[i].row);
      rows := rows + [inputs[i].row];
      cols := added.value.0;
      if sch.dynamic {
        records := records + [added.value.1];
      }
    }
    assert rows == RowsOf(inputs);
    r := Ok(Columns(cols, if sch.dynamic then Some(records) else None));
  }

  lemma NamedColumnsNext(sch: Schema, keepPk: bool, rows: seq<Row>, row: Row)
    ensures NamedColumns(sch, keepPk, rows + [row]) == Extend(sch, keepPk, NamedColumns(sch, keepPk, rows), row)
    ensures Records(sch, keepPk, rows + [row]) == Records(sch, keepPk, rows) + [LeftOver(sch, keepPk, row)]
  {
    assert (rows + [row])[..|rows + [row]|-1] == rows;
  }

  lemma {:induction false} NamedColumnsTyped(sch: Schema, keepPk: bool, rows: seq<Row>)
    ensures Typed(sch, keepPk, NamedColumns(sch, keepPk, rows))
  {
    if rows != [] {
      var front := rows[..|rows|-1];
      NamedColumnsTyped(sch, keepPk, front);
      ExtendTyped(sch, keepPk, NamedColumns(sch, keepPk, front), rows[|rows|-1]);
    }
  }

  function ColumnsOf(sch: Schema, keepPk: bool, rows: seq<Row>): Columns {
    Columns(NamedColumns(sch, keepPk, rows), if sch.dynamic then Some(Records(sch, keepPk, rows)) else None)
  }

  // ----- Where every cell goes -----

  lemma {:induction false} NamedColumnIs(sch: Schema, keepPk: bool, rows: seq<Row>, name: string)
    ensures var cols := NamedColumns(sch, keepPk, rows);
            && (name in cols <==> Stored(sch, keepPk, name) && Having(rows, name) > 0)
            && (name in cols ==>
                  cols[name] == EmptyColumn(FieldOf(sch.fields, name).value).(cells := CellsOf(rows, name)))
  {
    if rows != [] {
      NamedColumnIs(sch, keepPk, rows[..|rows|-1], name);
    }
  }

  lemma {:induction false} HavingPrefix(rows: seq<Row>, name: string, i: nat)
    requires i < |rows| && name in rows[i]
    ensures Having(rows[..i], name) < Having(rows, name)
    ensures CellsOf(rows, name)[Having(rows[..i], name)] == CellOf(rows[i][name])
  {
    var front := rows[..|rows|-1];
    if i < |front| {
      HavingPrefix(front, name, i);
      assert front[..i] == rows[..i];
    }
  }

  /** MAIN RESULT: each field of each row goes to exactly one place. A stored field is the cell of its column at
      the number of earlier rows that have it; an auto-ID key that is not kept goes nowhere; any other field is
      in the row's record, if the schema is dynamic. */
  lemma CellsAreConserved(sch: Schema, keepPk: bool, rows: seq<Row>, i: nat, name: string)
    requires i < |rows| && name in rows[i]
    ensures var c := ColumnsOf(sch, keepPk, rows);
            var field := FieldOf(sch.fields, name);
            var key := field.Some? && field.value.primaryKey && field.value.autoID && !keepPk;
            var creatable := field.Some? && field.value.creation.Creatable?;
            && (name in c.named <==> creatable && !key)
            && (name in c.named ==>
                  && Having(rows[..i], name) < |c.named[name].cells|
                  && c.named[name].cells[Having(rows[..i], name)]
                     == if rows[i][name].Some? then Some(Plain(rows[i][name].value)) else None)
            && (c.records.Some? <==> sch.dynamic)
            && (c.records.Some? ==>
                  && |c.records.value| == |rows|
                  && (name in c.records.value[i] <==> !creatable && !key)
                  && (name in c.records.value[i] ==> c.records.value[i][name] == rows[i][name]))
  {
    NamedColumnIs(sch, keepPk, rows, name);
    HavingPrefix(rows, name, i);
  }

  /** ... and nothing else is in a column or a record. Every column is of its field's type. */
  lemma NothingIsAdded(sch: Schema, keepPk: bool, rows: seq<Row>, name: string)
    ensures var c := ColumnsOf(sch, keepPk, rows);
            && (name in c.named ==>
                  && |c.named[name].cells| == Having(rows, name) > 0
                  && FieldOf(sch.fields, name).Some?
                  && var col, f := c.named[name], FieldOf(sch.fields, name).value;
                     && col.name == name && col.nullable == f.nullable
                     && (f.kind != STRING_KIND ==> col.kind == f.kind)
                     && (f.kind == STRING_KIND ==> col.kind == VARCHAR_KIND)
                     && col.dim == if f.dim.Some? then f.dim.value.value else 0)
            && (c.records.Some? ==> forall i :: 0 <= i < |rows| ==> name in c.records.value[i] ==> name in rows[i])
  {
    NamedColumnIs(sch, keepPk, rows, name);
  }

  /** All rows have the field. */
  ghost predicate Everywhere(rows: seq<Row>, name: string) {
    forall i :: 0 <= i < |rows| ==> name in rows[i]
  }

  lemma {:induction false} HavingAll(rows: seq<Row>, name: string)
    ensures Having(rows, name) == |rows| <==> Everywhere(rows, name)
  {
    if rows != [] {
      var front := rows[..|rows|-1];
      HavingAll(front, name);
      assert Everywhere(rows, name) <==> Everywhere(front, name) && name in rows[|rows|-1];
    }
  }

  /** Transposition: where all rows have a field, cell i of its column is row i's value. */
  lemma ColumnsTranspose(sch: Schema, keepPk: bool, rows: seq<Row>, name: string, i: nat)
    requires Stored(sch, keepPk, name) && Everywhere(rows, name) && i < |rows|
    ensures var cols := NamedColumns(sch, keepPk, rows);
            && name in cols && |cols[name].cells| == |rows|
            && cols[name].cells[i] == if rows[i][name].Some? then Some(Plain(rows[i][name].value)) else None
  {
    NamedColumnIs(sch, keepPk, rows, name);
    HavingAll(rows, name);
    HavingAll(rows[..i], name);
    HavingPrefix(rows, name, i);
  }
}
