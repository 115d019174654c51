/** Filling rows from columns. */
module RowFillings {
  import opened Wrappers
  import opened RowColumns
  import opened StoredColumns
  import opened InsertRequests
  import opened RowInserts

  /** Writes what cell idx of each column reads as, if the receiver has a field for it; the first error or panic ends
      it. */
  method FillData(cols: seq<Stock>, receiver: set<string>, idx: nat) returns (r: Result<map<string, Payload>>)
    ensures r == Filled(cols, receiver, idx)
  {
    var data: map<string, Payload> := map[];
    for i := 0 to |cols|
      invariant Filled(cols[..i], receiver, idx) == Ok(data)
    {
      assert cols[..i+1][..i] == cols[..i];
      if cols[i].name in receiver {
        var val := Read(cols[i], idx);
        FillStops(cols, receiver, idx, i + 1);
        if !val.Ok? {
          return if val.Err? then Err else Panic;
        }
        data := data[cols[i].name := val.value];
      }
    }
    assert cols[..|cols|] == cols;
    r := Ok(data);
  }

  function Filled(cols: seq<Stock>, receiver: set<string>, idx: nat): Result<map<string, Payload>> {
    if cols == [] then Ok(map[])
    else
      var col := cols[|cols|-1];
      match Filled(cols[..|cols|-1], receiver, idx)
      case Ok(data) =>
        if col.name !in receiver then Ok(data)
        else (match Read(col, idx)
              case Ok(v) => Ok(data[col.name := v])
              case Err => Err
              case Panic => Panic)
      case Err => Err
      case Panic => Panic
  }

  /** Later columns do not undo an error or a panic. */
  lemma {:induction false} FillStops(cols: seq<Stock>, receiver: set<string>, idx: nat, i: nat)
    requires i <= |cols|
    ensures !Filled(cols[..i], receiver, idx).Ok? ==> Filled(cols, receiver, idx) == Filled(cols[..i], receiver, idx)
  {
    if i < |cols| {
      var front := cols[..|cols|-1];
      FillStops(front, receiver, idx, i);
      assert front[..i] == cols[..i];
    } else {
      assert cols[..i] == cols;
    }
  }

  /** The first wanted cell that cannot be read decides what becomes of the row, whatever comes behind it. */
  lemma {:induction false} FirstFailureDecides(cols: seq<Stock>, receiver: set<string>, idx: nat, i: nat)
    requires i < |cols| && cols[i].name in receiver && !Read(cols[i], idx).Ok?
    requires forall j :: 0 <= j < i && cols[j].name in receiver ==> Read(cols[j], idx).Ok?
    ensures Filled(cols, receiver, idx).Err? <==> Read(cols[i], idx).Err?
    ensures Filled(cols, receiver, idx).Panic? <==> Read(cols[i], idx).Panic?
  {
    FilledSoFar(cols[..i], receiver, idx);
    assert cols[..i+1][..i] == cols[..i];
    FillStops(cols, receiver, idx, i + 1);
  }

  lemma {:induction false} FilledSoFar(cols: seq<Stock>, receiver: set<string>, idx: nat)
    requires forall j :: 0 <= j < |cols| && cols[j].name in receiver ==> Read(cols[j], idx).Ok?
    ensures Filled(cols, receiver, idx).Ok?
  {
    if cols != [] {
      FilledSoFar(cols[..|cols|-1], receiver, idx);
    }
  }

  ghost predicate DistinctNames(cols: seq<Stock>) {
    forall i, j :: 0 <= i < j < |cols| ==> cols[i].name != cols[j].name
  }

  ghost predicate Listed(cols: seq<Stock>, name: string) {
    exists i :: 0 <= i < |cols| && cols[i].name == name
  }

  lemma ListedNext(cols: seq<Stock>, name: string)
    requires cols != []
    ensures Listed(cols, name) <==> Listed(cols[..|cols|-1], name) || cols[|cols|-1].name == name
  {
    if i :| 0 <= i < |cols| && cols[i].name == name {
      if i < |cols| - 1 {
        assert cols[..|cols|-1][i].name == name;
      }
    }
  }

  /** Filling succeeds exactly if every wanted cell can be read, and then writes each of them and nothing else. */
  lemma {:induction false} FilledIs(cols: seq<Stock>, receiver: set<string>, idx: nat)
    requires DistinctNames(cols)
    ensures Filled(cols, receiver, idx).Ok?
            <==> forall i :: 0 <= i < |cols| && cols[i].name in receiver ==> Read(cols[i], idx).Ok?
    ensures Filled(cols, receiver, idx).Panic? ==>
              exists i :: 0 <= i < |cols| && cols[i].name in receiver && Read(cols[i], idx).Panic?
    ensures Filled(cols, receiver, idx).Ok? ==>
              var data := Filled(cols, receiver, idx).value;
              && (forall name :: name in data <==> name in receiver && Listed(cols, name))
              && (forall i :: 0 <= i < |cols| && cols[i].name in receiver ==>
                    cols[i].name in data && Ok(data[cols[i].name]) == Read(cols[i], idx))
  {
    if cols != [] {
      var front := cols[..|cols|-1];
      FilledIs(front, receiver, idx);
      assert forall i :: 0 <= i < |front| ==> front[i] == cols[i];
      forall name {
        ListedNext(cols, name);
      }
    }
  }

  /** Columns that stand for the given logical ones, each in whatever encoding it came back in. */
  ghost predicate StandFor(cols: seq<Stock>, named: map<string, Column>) {
    && DistinctNames(cols)
    && (forall i :: 0 <= i < |cols| ==>
          cols[i].name in named && Sound(cols[i]) && Cells(cols[i]) == named[cols[i].name].cells)
    && forall name :: name in named ==> Listed(cols, name)
  }

  /** The stored fields of a row that the receiver wants. */
  ghost predicate Wanted(sch: Schema, keepPk: bool, row: Row, receiver: set<string>, name: string) {
    name in receiver && name in row && Stored(sch, keepPk, name)
  }

  /** What a receiver of the row should hold. */
  function RowBack(sch: Schema, keepPk: bool, row: Row, receiver: set<string>): map<string, Payload> {
    map name | name in row && name in receiver && Stored(sch, keepPk, name) && row[name].Some? :: Plain(row[name].value)
  }

  ghost predicate WantsNoNull(sch: Schema, keepPk: bool, row: Row, receiver: set<string>) {
    forall name :: Wanted(sch, keepPk, row, receiver, name) ==> row[name].Some?
  }

  /** What column j reads as at row i of uniform rows. */
  lemma ReadStored(sch: Schema, keepPk: bool, rows: seq<Row>, cols: seq<Stock>, i: nat, j: nat)
    requires i < |rows| && Uniform(sch, keepPk, rows) && j < |cols|
    requires StandFor(cols, NamedColumns(sch, keepPk, rows))
    ensures cols[j].name in rows[i] && Stored(sch, keepPk, cols[j].name) && i < Len(cols[j])
    ensures var v := rows[i][cols[j].name];
            && (v.Some? ==> Read(cols[j], i) == Ok(Plain(v.value)))
            && (v.None? ==>
                  && Cells(cols[j])[i].None?
                  && if cols[j].nullable && cols[j].sparse then Read(cols[j], i) == Ok(cols[j].stored.values[i])
                     else Read(cols[j], i) == Err)
  {
    NamedColumnIs(sch, keepPk, rows, cols[j].name);
    ColumnsTranspose(sch, keepPk, rows, cols[j].name, i);
    ReadIsTheCellIff(cols[j], i);
  }

  lemma WantedListed(sch: Schema, keepPk: bool, rows: seq<Row>, cols: seq<Stock>, i: nat, name: string) returns (j: nat)
    requires i < |rows| && StandFor(cols, NamedColumns(sch, keepPk, rows))
    requires name in rows[i] && Stored(sch, keepPk, name)
    ensures j < |cols| && cols[j].name == name
  {
    HavingPrefix(rows, name, i);
    NamedColumnIs(sch, keepPk, rows, name);
    j :| 0 <= j < |cols| && cols[j].name == name;
  }

  /** The wanted fields of the row are the wanted columns. */
  lemma WantedColumns(sch: Schema, keepPk: bool, rows: seq<Row>, cols: seq<Stock>, receiver: set<string>, i: nat,
                      name: string)
    requires i < |rows| && Uniform(sch, keepPk, rows)
    requires StandFor(cols, NamedColumns(sch, keepPk, rows))
    ensures Wanted(sch, keepPk, rows[i], receiver, name) <==> name in receiver && Listed(cols, name)
  {
    if j :| 0 <= j < |cols| && cols[j].name == name {
      ReadStored(sch, keepPk, rows, cols, i, j);
    }
    if Wanted(sch, keepPk, rows[i], receiver, name) {
      var j := WantedListed(sch, keepPk, rows, cols, i, name);
    }
  }

  lemma RowIsFilled(sch: Schema, keepPk: bool, rows: seq<Row>, cols: seq<Stock>, receiver: set<string>, i: nat)
    requires i < |rows| && Uniform(sch, keepPk, rows)
    requires StandFor(cols, NamedColumns(sch, keepPk, rows))
    requires WantsNoNull(sch, keepPk, rows[i], receiver)
    ensures Filled(cols, receiver, i) == Ok(RowBack(sch, keepPk, rows[i], receiver))
  {
    FilledIs(cols, receiver, i);
    forall j | 0 <= j < |cols| && cols[j].name in receiver
      ensures cols[j].name in rows[i] && rows[i][cols[j].name].Some?
      ensures Read(cols[j], i) == Ok(Plain(rows[i][cols[j].name].value))
    {
      ReadStored(sch, keepPk, rows, cols, i, j);
      assert Wanted(sch, keepPk, rows[i], receiver, cols[j].name);
    }
    var data := Filled(cols, receiver, i).value;
    forall name
      ensures name in data <==> name in RowBack(sch, keepPk, rows[i], receiver)
      ensures name in data ==> data[name] == RowBack(sch, keepPk, rows[i], receiver)[name]
    {
      WantedColumns(sch, keepPk, rows, cols, receiver, i, name);
    }
    SameMap(data, RowBack(sch, keepPk, rows[i], receiver));
  }

  lemma SameMap(a: map<string, Payload>, b: map<string, Payload>)
    requires forall name :: name in a <==> name in b
    requires forall name :: name in a ==> a[name] == b[name]
    ensures a == b
  {
    assert a.Keys == b.Keys;
  }

  /** MAIN RESULT, the round trip: from columns that stand for those of uniform rows, filling row i succeeds and gives
      exactly its own wanted values if and only if none of them is null. */
  lemma RowsComeBack(sch: Schema, keepPk: bool, rows: seq<Row>, cols: seq<Stock>, receiver: set<string>, i: nat)
    requires i < |rows| && Uniform(sch, keepPk, rows)
    requires StandFor(cols, NamedColumns(sch, keepPk, rows))
    ensures Filled(cols, receiver, i) == Ok(RowBack(sch, keepPk, rows[i], receiver))
            <==> WantsNoNull(sch, keepPk, rows[i], receiver)
  {
    if WantsNoNull(sch, keepPk, rows[i], receiver) {
      RowIsFilled(sch, keepPk, rows, cols, receiver, i);
    } else {
      var name :| Wanted(sch, keepPk, rows[i], receiver, name) && rows[i][name].None?;
      var j := WantedListed(sch, keepPk, rows, cols, i, name);
      FilledIs(cols, receiver, i);
      assert Filled(cols, receiver, i).Ok? ==> name in Filled(cols, receiver, i).value;
    }
  }

  /** Exactly when filling fails: a wanted value is null in a column that is not sparse. A null of a sparse column,
      which is how results come back, is filled in as its filler instead, and no error tells. */
  lemma FillFailsIff(sch: Schema, keepPk: bool, rows: seq<Row>, cols: seq<Stock>, receiver: set<string>, i: nat)
    requires i < |rows| && Uniform(sch, keepPk, rows)
    requires StandFor(cols, NamedColumns(sch, keepPk, rows))
    ensures Filled(cols, receiver, i).Err?
            <==> exists j :: 0 <= j < |cols| && Wanted(sch, keepPk, rows[i], receiver, cols[j].name)
                             && rows[i][cols[j].name].None? && !cols[j].sparse
    ensures !Filled(cols, receiver, i).Panic?
    ensures Filled(cols, receiver, i).Ok? ==>
              forall j :: 0 <= j < |cols| && Wanted(sch, keepPk, rows[i], receiver, cols[j].name)
                          && rows[i][cols[j].name].None? ==>
                cols[j].name in Filled(cols, receiver, i).value && i < |cols[j].stored.values|
                && Filled(cols, receiver, i).value[cols[j].name] == cols[j].stored.values[i]
  {
    FilledIs(cols, receiver, i);
    forall j | 0 <= j < |cols|
      ensures cols[j].name in rows[i] && Stored(sch, keepPk, cols[j].name)
      ensures Read(cols[j], i).Err? <==> rows[i][cols[j].name].None? && !cols[j].sparse
      ensures !Read(cols[j], i).Panic?
      ensures rows[i][cols[j].name].None? && cols[j].sparse ==>
                i < |cols[j].stored.values| && Read(cols[j], i) == Ok(cols[j].stored.values[i])
    {
      ReadStored(sch, keepPk, rows, cols, i, j);
    }
  }
}
