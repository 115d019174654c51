/** Search answers: one flat list of hits for all queries, split per query, and the iterator that hands out the
    hits of one query within a row budget. */
module SearchResults {
  import opened Wrappers

  /** What can be wrong with one query's part of an answer. */
  datatype Problem = TopkMissing | BadIds | BadGroupBy | BadFields

  /** A value of an output field: a JSON document, by the paths that exist in it, or anything else. */
  datatype Cell = Plain(value: int) | Document(paths: map<string, int>)

  /** A column of output: a field's own one, or, with a key, the dynamic one that looks up the key in the documents of
      a JSON field. */
  datatype Output = Output(name: string, key: Option<string>, cells: seq<Cell>)

  /** What a cell reads as: itself, what a document has under the key, or an error. */
  datatype Reading = Whole(cell: Cell) | Under(raw: int) | Missing

  /** The name under which a column is asked for. */
  function NameOf(col: Output): string {
    if col.key.Some? then col.key.value else col.name
  }

  function Read(col: Output, j: nat): (r: Reading)
    requires j < |col.cells|
    ensures col.key.None? <==> r == Whole(col.cells[j])
    ensures r.Under? <==> col.key.Some? && col.cells[j].Document? && col.key.value in col.cells[j].paths
    ensures r.Under? ==> r.raw == col.cells[j].paths[col.key.value]
  {
    match col.key
    case None => Whole(col.cells[j])
    case Some(key) =>
      match col.cells[j]
      case Document(paths) => if key in paths then Under(paths[key]) else Missing
      case Plain(_) => Missing
  }

  /** The flat answer. Scores, IDs, group-by values and every field list the hits of all queries one after the
      other; topks says how many belong to each. Whether the IDs can be parsed depends on the schema alone; the group-by
      values and the fields may parse for one query and not for another. */
  datatype Answer = Answer(
    numQueries: nat,
    topks: seq<nat>,
    scores: seq<int>,
    ids: Option<seq<int>>,
    groupBy: Option<seq<int>>,
    fields: seq<Output>,
    recalls: seq<int>,
    idsOk: bool, groupByOk: nat -> bool, fieldsOk: nat -> bool)

  /** One query's hits. The IDs are missing where they could not be parsed. */
  datatype ResultSet = ResultSet(
    count: nat,
    scores: seq<int>,
    recall: int,
    ids: Option<seq<int>>,
    groupBy: Option<seq<int>>,
    fields: seq<Output>,
    err: Option<Problem>)

  function Sum(ns: seq<nat>): nat {
    if ns == [] then 0 else Sum(ns[..|ns|-1]) + ns[|ns|-1]
  }

  /** Where query i's hits start: behind the hits of all queries before it. */
  function Offset(topks: seq<nat>, i: nat): nat {
    if i <= |topks| then Sum(topks[..i]) else Sum(topks)
  }

  /** One query's part of every column, still of its kind. */
  function PartOfAll(fields: seq<Output>, from: nat, to: nat): (r: seq<Output>)
    requires from <= to && forall k :: 0 <= k < |fields| ==> to <= |fields[k].cells|
    ensures |r| == |fields|
    ensures forall k :: 0 <= k < |fields| ==> r[k] == fields[k].(cells := fields[k].cells[from..to])
  {
    seq(|fields|, k requires 0 <= k < |fields| => fields[k].(cells := fields[k].cells[from..to]))
  }

  /** All flat lists that are present hold the hits the topks announce. */
  ghost predicate LongEnough(a: Answer) {
    var n := Sum(a.topks);
    && n <= |a.scores|
    && (a.ids.Some? ==> n <= |a.ids.value|)
    && (a.groupBy.Some? ==> n <= |a.groupBy.value|)
    && (forall k :: 0 <= k < |a.fields| ==> n <= |a.fields[k].cells|)
  }

  lemma {:induction false} SumPrefix(ns: seq<nat>, i: nat)
    requires i < |ns|
    ensures Sum(ns[..i+1]) == Sum(ns[..i]) + ns[i]
    ensures Sum(ns[..i+1]) <= Sum(ns)
    decreases |ns|
  {
    assert ns[..i+1][..i] == ns[..i];
    if i + 1 < |ns| {
      SumPrefix(ns[..|ns|-1], i);
      assert ns[..|ns|-1][..i+1] == ns[..i+1] && ns[..|ns|-1][..i] == ns[..i];
    } else {
      assert ns[..i+1] == ns;
    }
  }

  lemma OffsetNext(a: Answer, i: nat)
    ensures Offset(a.topks, i + 1) == Offset(a.topks, i) + (if i < |a.topks| then a.topks[i] else 0)
    ensures Offset(a.topks, i + 1) <= Sum(a.topks)
  {
    if i < |a.topks| {
      SumPrefix(a.topks, i);
    } else {
      assert a.topks[..|a.topks|] == a.topks;
    }
  }

  /** What query i gets. A query without a topk gets an error and no hits; one whose part cannot be parsed gets the
      hits up to the part that failed, and still takes its share of the flat lists. */
  ghost function EntryOf(a: Answer, i: nat): (e: ResultSet)
    requires LongEnough(a)
    ensures e.ids.Some? && e.ids.value != [] ==> Aligned(e)
  {
    OffsetNext(a, i);
    var from, to := Offset(a.topks, i), Offset(a.topks, i + 1);
    if i >= |a.topks| then ResultSet(0, [], 0, None, None, [], Some(TopkMissing))
    else
      var ids := if !a.idsOk then None else if a.ids.Some? then Some(a.ids.value[from..to]) else Some([]);
      var groupBy := if a.idsOk && a.groupBy.Some? && a.groupByOk(i) then Some(a.groupBy.value[from..to]) else None;
      var err := if !a.idsOk then Some(BadIds)
                 else if a.groupBy.Some? && !a.groupByOk(i) then Some(BadGroupBy)
                 else if !a.fieldsOk(i) then Some(BadFields) else None;
      ResultSet(to - from, a.scores[from..to], if i < |a.recalls| then a.recalls[i] else 0,
                ids, groupBy, if err.None? then PartOfAll(a.fields, from, to) else [], err)
  }

  /** What can be read off the answer about query i's entry: which error it carries, whether it has hits, IDs, group-by
      values and fields at all, and its own recall. */
  lemma EntryOutcome(a: Answer, i: nat)
    requires LongEnough(a)
    ensures var e := EntryOf(a, i);
            && (e.err == Some(TopkMissing) <==> |a.topks| <= i)
            && (e.err == Some(BadIds) <==> i < |a.topks| && !a.idsOk)
            && (e.err == Some(BadGroupBy) <==> i < |a.topks| && a.idsOk && a.groupBy.Some? && !a.groupByOk(i))
            && (e.err == Some(BadFields)
                <==> i < |a.topks| && a.idsOk && (a.groupBy.Some? ==> a.groupByOk(i)) && !a.fieldsOk(i))
            && (e.err.None? <==> i < |a.topks| && a.idsOk && (a.groupBy.Some? ==> a.groupByOk(i)) && a.fieldsOk(i))
    ensures var e := EntryOf(a, i);
            && (i < |a.topks| ==> e.count == |e.scores| == a.topks[i])
            && (|a.topks| <= i ==> e.count == 0 && e.scores == [])
            && (e.ids.Some? <==> i < |a.topks| && a.idsOk)
            && (e.ids.Some? ==> |e.ids.value| == if a.ids.Some? then a.topks[i] else 0)
            && (e.groupBy.Some? <==> i < |a.topks| && a.idsOk && a.groupBy.Some? && a.groupByOk(i))
            && |e.fields| == if e.err.None? then |a.fields| else 0
    ensures EntryOf(a, i).recall == if i < |a.topks| && i < |a.recalls| then a.recalls[i] else 0
  {
    OffsetNext(a, i);
  }

  /** One query's entry is built step by step; the offset moves on whatever goes wrong. */
  method HandleOne(a: Answer, i: nat, offset: nat) returns (entry: ResultSet, rc: nat)
    requires LongEnough(a) && offset == Offset(a.topks, i)
    ensures entry == EntryOf(a, i)
    ensures offset + rc == Offset(a.topks, i + 1)
  {
    OffsetNext(a, i);
    entry, rc := ResultSet(0, [], 0, None, None, [], None), 0;
    if i >= |a.topks| {
      entry := entry.(err := Some(TopkMissing));
      return;
    }
    rc := a.topks[i];
    entry := entry.(count := rc, scores := a.scores[offset..offset + rc]);
    if i < |a.recalls| {
      entry := entry.(recall := a.recalls[i]);
    }
    if !a.idsOk {
      entry := entry.(err := Some(BadIds));
      return;
    }
    entry := entry.(ids := if a.ids.Some? then Some(a.ids.value[offset..offset + rc]) else Some([]));
    if a.groupBy.Some? {
      if !a.groupByOk(i) {
        entry := entry.(err := Some(BadGroupBy));
        return;
      }
      entry := entry.(groupBy := Some(a.groupBy.value[offset..offset + rc]));
    }
    if !a.fieldsOk(i) {
      entry := entry.(err := Some(BadFields));
      return;
    }
    entry := entry.(fields := PartOfAll(a.fields, offset, offset + rc));
  }

  /** One entry per query, cut out of the flat lists with a running offset. */
  method HandleSearchResult(a: Answer) returns (sr: seq<ResultSet>)
    requires LongEnough(a)
    ensures |sr| == a.numQueries
    ensures forall i :: 0 <= i < |sr| ==> sr[i] == EntryOf(a, i)
    ensures forall i :: 0 <= i < |sr| && i < |a.topks| && i < |a.recalls| ==> sr[i].recall == a.recalls[i]
    ensures forall i :: 0 <= i < |sr| && (|a.topks| <= i || |a.recalls| <= i) ==> sr[i].recall == 0
  {
    sr := [];
    var offset := 0;
    for i := 0 to a.numQueries
      invariant offset == Offset(a.topks, i)
      invariant |sr| == i && forall j :: 0 <= j < i ==> sr[j] == EntryOf(a, j)
    {
      var entry, rc := HandleOne(a, i, offset);
      offset := offset + rc;
      sr := sr + [entry];
    }
    forall i | 0 <= i < |sr|
      ensures sr[i].recall == if i < |a.topks| && i < |a.recalls| then a.recalls[i] else 0
    {
      EntryOutcome(a, i);
    }
  }

  /** Row j of query i is hit Offset(i) + j, in every list: scores, IDs, group-by values and fields stay aligned. */
  lemma HitsStayAligned(a: Answer, i: nat, j: nat)
    requires LongEnough(a) && i < |a.topks| && j < a.topks[i]
    ensures var e := EntryOf(a, i);
            var at := Offset(a.topks, i) + j;
            && at < |a.scores|
            && e.count == |e.scores| == a.topks[i] && e.scores[j] == a.scores[at]
            && (a.idsOk && a.ids.Some? ==>
                  && e.ids.Some? && j < |e.ids.value| == e.count && at < |a.ids.value|
                  && e.ids.value[j] == a.ids.value[at])
            && (e.groupBy.Some? ==>
                  j < |e.groupBy.value| && at < |a.groupBy.value| && e.groupBy.value[j] == a.groupBy.value[at])
            && (e.err.None? ==> |e.fields| == |a.fields|)
            && (e.err.None? ==> forall k :: 0 <= k < |a.fields| ==>
                  && j < |e.fields[k].cells| == e.count && at < |a.fields[k].cells|
                  && NameOf(e.fields[k]) == NameOf(a.fields[k]) && Read(e.fields[k], j) == Read(a.fields[k], at))
  {
    OffsetNext(a, i);
  }

  function ScoresOf(sr: seq<ResultSet>): seq<int> {
    if sr == [] then [] else ScoresOf(sr[..|sr|-1]) + sr[|sr|-1].scores
  }

  function IdsOf(sr: seq<ResultSet>): seq<int> {
    if sr == [] then []
    else
      var last := sr[|sr|-1];
      IdsOf(sr[..|sr|-1]) + (if last.ids.Some? then last.ids.value else [])
  }

  function GroupsOf(sr: seq<ResultSet>): seq<int> {
    if sr == [] then []
    else
      var last := sr[|sr|-1];
      GroupsOf(sr[..|sr|-1]) + (if last.groupBy.Some? then last.groupBy.value else [])
  }

  /** What the entries hold of one field. */
  function FieldOf(sr: seq<ResultSet>, k: nat): seq<Cell> {
    if sr == [] then []
    else
      var last := sr[|sr|-1];
      FieldOf(sr[..|sr|-1], k) + (if k < |last.fields| then last.fields[k].cells else [])
  }

  /** MAIN RESULT: putting the queries' pieces one after the other gives the flat lists back, up to the number of
      hits the first n topks announce. Nothing is lost, repeated or moved to another query. */
  lemma {:induction false} PiecesAreThePrefix(a: Answer, sr: seq<ResultSet>)
    requires LongEnough(a)
    requires forall i :: 0 <= i < |sr| ==> sr[i] == EntryOf(a, i)
    ensures Offset(a.topks, |sr|) <= Sum(a.topks)
    ensures ScoresOf(sr) == a.scores[..Offset(a.topks, |sr|)]
    ensures a.idsOk && a.ids.Some? ==> IdsOf(sr) == a.ids.value[..Offset(a.topks, |sr|)]
  {
    if sr != [] {
      var n := |sr| - 1;
      PiecesAreThePrefix(a, sr[..n]);
      OffsetNext(a, n);
      var from, to := Offset(a.topks, n), Offset(a.topks, n + 1);
      PrefixGrows(a.scores, from, to);
      if a.idsOk && a.ids.Some? {
        PrefixGrows(a.ids.value, from, to);
      }
    }
  }

  lemma {:induction false} GroupPieces(a: Answer, sr: seq<ResultSet>)
    requires LongEnough(a) && a.idsOk && a.groupBy.Some?
    requires forall i :: 0 <= i < |sr| ==> sr[i] == EntryOf(a, i) && a.groupByOk(i)
    ensures Offset(a.topks, |sr|) <= |a.groupBy.value| && GroupsOf(sr) == a.groupBy.value[..Offset(a.topks, |sr|)]
  {
    if sr != [] {
      var n := |sr| - 1;
      GroupPieces(a, sr[..n]);
      OffsetNext(a, n);
      PrefixGrows(a.groupBy.value, Offset(a.topks, n), Offset(a.topks, n + 1));
    }
  }

  lemma EntryField(a: Answer, i: nat, k: nat)
    requires LongEnough(a) && a.idsOk && k < |a.fields|
    requires (a.groupBy.Some? ==> a.groupByOk(i)) && a.fieldsOk(i)
    ensures var e := EntryOf(a, i);
            var from, to := Offset(a.topks, i), Offset(a.topks, i + 1);
            && from <= to <= |a.fields[k].cells|
            && (if k < |e.fields| then e.fields[k].cells else []) == a.fields[k].cells[from..to]
  {
    OffsetNext(a, i);
  }

  lemma {:induction false} FieldPieces(a: Answer, sr: seq<ResultSet>, k: nat)
    requires LongEnough(a) && a.idsOk && k < |a.fields|
    requires forall i :: 0 <= i < |sr| ==>
               sr[i] == EntryOf(a, i) && (a.groupBy.Some? ==> a.groupByOk(i)) && a.fieldsOk(i)
    ensures Offset(a.topks, |sr|) <= |a.fields[k].cells| && FieldOf(sr, k) == a.fields[k].cells[..Offset(a.topks, |sr|)]
  {
    if sr != [] {
      var n := |sr| - 1;
      FieldPieces(a, sr[..n], k);
      EntryField(a, n, k);
      PrefixGrows(a.fields[k].cells, Offset(a.topks, n), Offset(a.topks, n + 1));
    }
  }

  /** ... and so do the group-by values and every field, where they can be parsed for all of these queries. */
  lemma ColumnPiecesAreThePrefix(a: Answer, sr: seq<ResultSet>, k: nat)
    requires LongEnough(a) && a.idsOk
    requires forall i :: 0 <= i < |sr| ==> sr[i] == EntryOf(a, i)
    ensures a.groupBy.Some? && (forall i :: 0 <= i < |sr| ==> a.groupByOk(i)) ==>
              Offset(a.topks, |sr|) <= |a.groupBy.value| && GroupsOf(sr) == a.groupBy.value[..Offset(a.topks, |sr|)]
    ensures (forall i :: 0 <= i < |sr| ==> (a.groupBy.Some? ==> a.groupByOk(i)) && a.fieldsOk(i)) && k < |a.fields| ==>
              && Offset(a.topks, |sr|) <= |a.fields[k].cells|
              && FieldOf(sr, k) == a.fields[k].cells[..Offset(a.topks, |sr|)]
  {
    if a.groupBy.Some? && forall i :: 0 <= i < |sr| ==> a.groupByOk(i) {
      GroupPieces(a, sr);
    }
    if k < |a.fields| && forall i :: 0 <= i < |sr| ==> (a.groupBy.Some? ==> a.groupByOk(i)) && a.fieldsOk(i) {
      FieldPieces(a, sr, k);
    }
  }

  lemma PrefixGrows<T>(flat: seq<T>, from: nat, to: nat)
    requires from <= to <= |flat|
    ensures flat[..from] + flat[from..to] == flat[..to]
    ensures from == to ==> flat[..from] + [] == flat[..to]
  {
  }

  // ----- Slicing -----

  /** A clamped slice of a column, as columns slice themselves. */
  function Clamp<T>(s: seq<T>, start: nat, end: nat): seq<T>
    requires start <= end
  {
    var l := |s|;
    s[if start > l then l else start..if end > l then l else end]
  }

  /** A slice of a column. A dynamic one has no slicing of its own, and comes out as the JSON column it looks into. */
  function SliceColumn(col: Output, start: nat, end: nat): Output
    requires start <= end
  {
    Output(col.name, None, Clamp(col.cells, start, end))
  }

  function SliceAll(fields: seq<Output>, start: nat, end: nat): (r: seq<Output>)
    requires start <= end
    ensures |r| == |fields| && forall k :: 0 <= k < |fields| ==> r[k] == SliceColumn(fields[k], start, end)
  {
    seq(|fields|, k requires 0 <= k < |fields| => SliceColumn(fields[k], start, end))
  }

  /** Every list of the set has as many rows as it counts. */
  ghost predicate Aligned(rs: ResultSet) {
    && rs.ids.Some? && |rs.scores| == |rs.ids.value| == rs.count
    && (rs.groupBy.Some? ==> |rs.groupBy.value| == rs.count)
    && forall k :: 0 <= k < |rs.fields| ==> |rs.fields[k].cells| == rs.count
  }

  /** Everything a set says about one row: what each column reads as, under its name. */
  datatype Hit = Hit(id: int, score: int, groupBy: Option<int>, fields: seq<(string, Reading)>)

  ghost function HitAt(rs: ResultSet, j: nat): (h: Hit)
    requires Aligned(rs) && j < rs.count
    ensures (h.id, h.score) == (rs.ids.value[j], rs.scores[j])
    ensures h.groupBy.Some? <==> rs.groupBy.Some?
    ensures h.groupBy.Some? ==> h.groupBy.value == rs.groupBy.value[j]
    ensures |h.fields| == |rs.fields|
    ensures forall k :: 0 <= k < |rs.fields| ==> h.fields[k] == (NameOf(rs.fields[k]), Read(rs.fields[k], j))
  {
    Hit(rs.ids.value[j], rs.scores[j], if rs.groupBy.Some? then Some(rs.groupBy.value[j]) else None,
        seq(|rs.fields|, k requires 0 <= k < |rs.fields| => (NameOf(rs.fields[k]), Read(rs.fields[k], j))))
  }

  /** The rows of a set. */
  ghost function HitsOf(rs: ResultSet): (hits: seq<Hit>)
    requires Aligned(rs)
    ensures |hits| == rs.count
    ensures forall j :: 0 <= j < rs.count ==> hits[j] == HitAt(rs, j)
  {
    seq(rs.count, j requires 0 <= j < rs.count => HitAt(rs, j))
  }

  /** The rows start to end of a result set. The recall is not sliced. */
  function Slice(rs: ResultSet, start: nat, end: nat): (r: ResultSet)
    requires Aligned(rs) && start <= end && start <= rs.count
    ensures Aligned(r) && r.err == rs.err && r.recall == 0
    ensures r.count == (if end > rs.count then rs.count else end) - start
  {
    var ids := Clamp(rs.ids.value, start, end);
    ResultSet(|ids|, rs.scores[start..start + |ids|], 0, Some(ids),
              if rs.groupBy.Some? then Some(Clamp(rs.groupBy.value, start, end)) else None,
              SliceAll(rs.fields, start, end), rs.err)
  }

  predicate HasDynamic(rs: ResultSet) {
    exists k :: 0 <= k < |rs.fields| && rs.fields[k].key.Some?
  }

  /** The row is the one that was sent, except perhaps for its dynamic fields. */
  ghost predicate SameButDynamic(got: Hit, sent: Hit) {
    && got.id == sent.id && got.score == sent.score && got.groupBy == sent.groupBy
    && |got.fields| == |sent.fields|
    && forall k :: 0 <= k < |sent.fields| ==>
         if sent.fields[k].1.Whole? then got.fields[k] == sent.fields[k] else got.fields[k].1.Whole?
  }

  /** The rows are those that were sent, one by one, except perhaps for their dynamic fields. */
  ghost predicate AllSameButDynamic(got: seq<Hit>, sent: seq<Hit>) {
    |got| == |sent| && forall i :: 0 <= i < |got| ==> got[i] == sent[i] || SameButDynamic(got[i], sent[i])
  }

  /** A row of a sliced column reads as the value itself, whatever it read as before. */
  lemma SliceReading(col: Output, start: nat, end: nat, j: nat)
    requires start <= end && j < |SliceColumn(col, start, end).cells|
    ensures start + j < |col.cells|
    ensures Read(SliceColumn(col, start, end), j) == Whole(col.cells[start + j])
    ensures Read(col, start + j) == Whole(col.cells[start + j]) <==> col.key.None?
    ensures Read(col, start + j).Whole? <==> col.key.None?
  {
  }

  lemma SliceHit(rs: ResultSet, start: nat, end: nat, j: nat)
    requires Aligned(rs) && start <= end && start <= rs.count && j < Slice(rs, start, end).count
    ensures SameButDynamic(HitAt(Slice(rs, start, end), j), HitAt(rs, start + j))
    ensures HitAt(Slice(rs, start, end), j) == HitAt(rs, start + j) <==> !HasDynamic(rs)
  {
    var r := Slice(rs, start, end);
    forall k | 0 <= k < |rs.fields|
      ensures HitAt(r, j).fields[k].1.Whole?
      ensures HitAt(r, j).fields[k] == HitAt(rs, start + j).fields[k] <==> rs.fields[k].key.None?
      ensures HitAt(rs, start + j).fields[k].1.Whole? <==> rs.fields[k].key.None?
    {
      SliceReading(rs.fields[k], start, end, j);
    }
    SameFieldsIff(HitAt(r, j), HitAt(rs, start + j));
  }

  lemma SameFieldsIff(got: Hit, sent: Hit)
    requires |got.fields| == |sent.fields|
    requires got.id == sent.id && got.score == sent.score && got.groupBy == sent.groupBy
    ensures got == sent <==> forall k :: 0 <= k < |sent.fields| ==> got.fields[k] == sent.fields[k]
  {
    if forall k :: 0 <= k < |sent.fields| ==> got.fields[k] == sent.fields[k] {
      assert got.fields == sent.fields;
    }
  }

  /** Exactly when the rows of a slice are the slice of the rows: no column is dynamic, or there is no row. IDs, scores,
      group-by values and all other fields are cut alike in any case. */
  lemma SliceHitsIff(rs: ResultSet, start: nat, end: nat)
    requires Aligned(rs) && start <= end && start <= rs.count
    ensures var got := HitsOf(Slice(rs, start, end));
            var sent := HitsOf(rs)[start..if end > rs.count then rs.count else end];
            && AllSameButDynamic(got, sent)
            && (got == sent <==> !HasDynamic(rs) || Slice(rs, start, end).count == 0)
  {
    var r := Slice(rs, start, end);
    var got, sent := HitsOf(r), HitsOf(rs)[start..if end > rs.count then rs.count else end];
    forall j | 0 <= j < r.count
      ensures SameButDynamic(got[j], sent[j]) && (got[j] == sent[j] <==> !HasDynamic(rs))
    {
      SliceHit(rs, start, end, j);
    }
    if r.count > 0 && HasDynamic(rs) {
      assert got[0] != sent[0];
    }
  }

  /** A cut takes a dynamic field away: the column does not answer to the field's name any more, and has the whole
      document under the name of the JSON field. */
  lemma CutLosesDynamicField(rs: ResultSet, k: nat, end: nat)
    requires Aligned(rs) && k < |rs.fields| && 0 < end < rs.count
    requires rs.fields[k].key.Some? && rs.fields[k].key != Some(rs.fields[k].name)
    ensures var got := HitAt(Slice(rs, 0, end), 0).fields[k];
            && got.0 == rs.fields[k].name != NameOf(rs.fields[k])
            && got.1 == Whole(rs.fields[k].cells[0])
  {
  }

  // ----- Iterating -----

  const UNLIMITED: int := -1

  /** What one call to the server gives the iterator. */
  datatype Reply = Answered(answer: Answer) | Failed

  datatype Next = Rows(rs: ResultSet) | Eof | Error | Panicked

  ghost predicate Usable(reply: Reply) {
    reply.Answered? ==> LongEnough(reply.answer)
  }

  /** What a call comes to: the first query's hits, though that query may carry an error. An answer without queries
      panics, and so does one whose first query has no IDs; a query with an empty list of IDs is the end. */
  ghost function Fetched(reply: Reply): (r: Next)
    requires Usable(reply)
    ensures r.Rows? ==> Aligned(r.rs) && r.rs.count > 0
  {
    if reply.Failed? then Error
    else if reply.answer.numQueries == 0 then Panicked
    else
      var rs := EntryOf(reply.answer, 0);
      if rs.ids.None? then Panicked else if rs.ids.value == [] then Eof else Rows(rs)
  }

  /** Parsing errors of the group-by values or the fields are handed on with the rows; no error tells. */
  lemma ErrorsPassAsRows(limit: int, reply: Reply)
    requires Usable(reply) && reply.Answered? && reply.answer.numQueries > 0
    requires limit > 0 || limit == UNLIMITED
    requires reply.answer.idsOk && reply.answer.ids.Some? && reply.answer.topks != [] && reply.answer.topks[0] > 0
    ensures var next := After(limit, reply).1;
            && next.Rows?
            && (next.rs.err.Some?
                <==> (reply.answer.groupBy.Some? && !reply.answer.groupByOk(0)) || !reply.answer.fieldsOk(0))
  {
    OffsetNext(reply.answer, 0);
  }

  class SearchIterator {
    var limit: int
    /** How often the server has been asked. */
    var calls: nat

    constructor (limit: int)
      requires limit >= UNLIMITED
      ensures this.limit == limit && calls == 0
    {
      this.limit, calls := limit, 0;
    }

    /** One call to the server. */
    method Fetch(reply: Reply) returns (r: Next)
      requires Usable(reply)
      modifies this`calls
      ensures calls == old(calls) + 1
      ensures r == Fetched(reply)
    {
      calls := calls + 1;
      if reply.Failed? {
        return Error;
      }
      var sets := HandleSearchResult(reply.answer);
      if |sets| == 0 {
        return Panicked;
      }
      var rs := sets[0];
      if rs.ids.None? {
        return Panicked;
      }
      if |rs.ids.value| == 0 {
        return Eof;
      }
      r := Rows(rs);
    }

    /** The next rows within the budget. With no budget left the end is reported without asking the server. */
    method Next(reply: Reply) returns (r: Next)
      requires limit >= UNLIMITED && Usable(reply)
      modifies this`limit, this`calls
      ensures limit >= UNLIMITED && (old(limit) == UNLIMITED <==> limit == UNLIMITED)
      ensures old(limit) == 0 ==> r == Eof && calls == old(calls) && limit == 0
      ensures old(limit) != 0 ==> calls == old(calls) + 1
      ensures r.Error? <==> old(limit) != 0 && reply.Failed?
      ensures r.Eof? <==>
                || old(limit) == 0
                || (reply.Answered?
                    && var a := reply.answer;
                       a.numQueries > 0 && a.topks != [] && a.idsOk && (a.ids.None? || a.topks[0] == 0))
      ensures r.Panicked? <==>
                old(limit) != 0 && reply.Answered?
                && var a := reply.answer; a.numQueries == 0 || a.topks == [] || !a.idsOk
      ensures r.Rows? <==>
                old(limit) != 0 && reply.Answered?
                && var a := reply.answer;
                   a.numQueries > 0 && a.topks != [] && a.idsOk && a.ids.Some? && a.topks[0] > 0
      ensures r.Rows? ==>
                var a, n := reply.answer, r.rs.count;
                && n == (if limit == UNLIMITED || a.topks[0] <= old(limit) then a.topks[0] else old(limit))
                && n <= |a.scores| && r.rs.scores == a.scores[..n]
                && n <= |a.ids.value| && r.rs.ids == Some(a.ids.value[..n])
      ensures limit == if r.Rows? && limit != UNLIMITED then old(limit) - r.rs.count else old(limit)
      ensures (limit, r) == After(old(limit), reply)
    {
      AfterOutcome(limit, reply);
      if limit == 0 {
        return Eof;
      }
      r := Fetch(reply);
      if !r.Rows? || limit == UNLIMITED {
        return;
      }
      var rs := r.rs;
      if rs.count > limit {
        rs := Slice(rs, 0, limit);
      }
      limit := limit - rs.count;
      r := Rows(rs);
    }

    /** A client that asks until the stream of replies is used up, and keeps what it is given. */
    method Drain(replies: seq<Reply>) returns (sets: seq<ResultSet>)
      requires limit >= UNLIMITED && AllUsable(replies)
      modifies this`limit, this`calls
      ensures forall i :: 0 <= i < |sets| ==> Aligned(sets[i])
      ensures (limit, AllHits(sets)) == Drained(old(limit), replies)
    {
      sets := [];
      for i := 0 to |replies|
        invariant limit >= UNLIMITED
        invariant forall j :: 0 <= j < |sets| ==> Aligned(sets[j])
        invariant (limit, AllHits(sets)) == Drained(old(limit), replies[..i])
      {
        assert replies[..i+1][..i] == replies[..i];
        var r := Next(replies[i]);
        if r.Rows? {
          assert (sets + [r.rs])[..|sets|] == sets;
          sets := sets + [r.rs];
        } else {
          assert AllHits(sets) + [] == AllHits(sets);
        }
      }
      assert replies[..|replies|] == replies;
    }
  }

  /** The budget and the outcome after one Next. */
  ghost function After(limit: int, reply: Reply): (r: (int, Next))
    requires limit >= UNLIMITED && Usable(reply)
    ensures r.1.Rows? ==> Aligned(r.1.rs)
  {
    if limit == 0 then (0, Eof)
    else
      var next := Fetched(reply);
      if !next.Rows? || limit == UNLIMITED then (limit, next)
      else
        var rs := if next.rs.count > limit then Slice(next.rs, 0, limit) else next.rs;
        (limit - rs.count, Rows(rs))
  }

  /** How a Next ends, read off the reply alone: only a failed call is an error; the end is an empty budget, or a first
      query whose IDs parse and are none; without a first query, or without its IDs, it panics; else it has that many
      rows from the front as the topk says and the budget allows. */
  lemma AfterOutcome(limit: int, reply: Reply)
    requires limit >= UNLIMITED && Usable(reply)
    ensures var (left, r) := After(limit, reply);
            && (r.Error? <==> limit != 0 && reply.Failed?)
            && (r.Eof? <==>
                  || limit == 0
                  || (reply.Answered?
                      && var a := reply.answer;
                         a.numQueries > 0 && a.topks != [] && a.idsOk && (a.ids.None? || a.topks[0] == 0)))
            && (r.Panicked? <==>
                  limit != 0 && reply.Answered?
                  && var a := reply.answer; a.numQueries == 0 || a.topks == [] || !a.idsOk)
            && (r.Rows? ==>
                  var a, n := reply.answer, r.rs.count;
                  && reply.Answered? && a.topks != [] && a.ids.Some?
                  && n == (if limit == UNLIMITED || a.topks[0] <= limit then a.topks[0] else limit)
                  && n <= |a.scores| && r.rs.scores == a.scores[..n]
                  && n <= |a.ids.value| && r.rs.ids == Some(a.ids.value[..n]))
            && left == if r.Rows? && limit != UNLIMITED then limit - r.rs.count else limit
  {
    if limit != 0 && reply.Answered? {
      EntryOutcome(reply.answer, 0);
      if reply.answer.topks != [] {
        FirstEntry(reply.answer);
      }
    }
  }

  /** The first query's lists are the front of the flat ones, and so is their front. */
  lemma FirstEntry(a: Answer)
    requires LongEnough(a) && a.topks != []
    ensures var e := EntryOf(a, 0);
            && a.topks[0] <= |a.scores| && e.scores == a.scores[..a.topks[0]]
            && (forall n :: 0 <= n <= a.topks[0] ==> e.scores[..n] == a.scores[..n])
            && (e.ids.Some? && a.ids.Some? ==>
                  && a.topks[0] <= |a.ids.value| && e.ids.value == a.ids.value[..a.topks[0]]
                  && forall n :: 0 <= n <= a.topks[0] ==> e.ids.value[..n] == a.ids.value[..n])
  {
    OffsetNext(a, 0);
  }

  ghost predicate AllUsable(replies: seq<Reply>) {
    forall i :: 0 <= i < |replies| ==> Usable(replies[i])
  }

  ghost function AllHits(sets: seq<ResultSet>): seq<Hit>
    requires forall i :: 0 <= i < |sets| ==> Aligned(sets[i])
  {
    if sets == [] then [] else AllHits(sets[..|sets|-1]) + HitsOf(sets[|sets|-1])
  }

  /** The rows of an outcome. */
  ghost function RowsOf(next: Next): seq<Hit>
    requires next.Rows? ==> Aligned(next.rs)
  {
    if next.Rows? then HitsOf(next.rs) else []
  }

  /** The batch that a Next gets is cut, and has a dynamic column. */
  ghost predicate CutsDynamic(limit: int, reply: Reply)
    requires Usable(reply)
  {
    var next := Fetched(reply);
    next.Rows? && 0 < limit < next.rs.count && HasDynamic(next.rs)
  }

  /** One Next hands out as much of the batch as the budget allows, from the front, and pays for it. The rows are those
      that were sent exactly if no batch with a dynamic column is cut. */
  lemma NextHandsOut(limit: int, reply: Reply)
    requires limit >= UNLIMITED && Usable(reply)
    ensures var batch := RowsOf(Fetched(reply));
            var (left, next) := After(limit, reply);
            && (limit == UNLIMITED ==> left == UNLIMITED && RowsOf(next) == batch)
            && (limit != UNLIMITED ==>
                  && left == limit - |RowsOf(next)| >= 0
                  && AllSameButDynamic(RowsOf(next), Take(batch, limit))
                  && (RowsOf(next) == Take(batch, limit) <==> !CutsDynamic(limit, reply)))
  {
    var next := Fetched(reply);
    if next.Rows? && 0 < limit < next.rs.count {
      SliceHitsIff(next.rs, 0, limit);
    }
  }

  ghost function Drained(limit: int, replies: seq<Reply>): (r: (int, seq<Hit>))
    requires limit >= UNLIMITED && AllUsable(replies)
    ensures r.0 >= UNLIMITED
  {
    if replies == [] then (limit, [])
    else
      var (l, hits) := Drained(limit, replies[..|replies|-1]);
      var (l', next) := After(l, replies[|replies|-1]);
      (l', hits + RowsOf(next))
  }

  /** All rows the server sends, in order. */
  ghost function StreamHits(replies: seq<Reply>): seq<Hit>
    requires AllUsable(replies)
  {
    if replies == [] then []
    else StreamHits(replies[..|replies|-1]) + RowsOf(Fetched(replies[|replies|-1]))
  }

  /** Somewhere in the stream a batch with a dynamic column is cut: the one in which the limit is reached, with rows to
      spare. */
  ghost predicate SomeCutDynamic(limit: nat, replies: seq<Reply>)
    requires AllUsable(replies)
  {
    replies != [] &&
      var front, last := replies[..|replies|-1], replies[|replies|-1];
      SomeCutDynamic(limit, front) || CutsDynamic(limit - |StreamHits(front)|, last)
  }

  /** MAIN RESULT: over any stream of replies, failures and empty batches included, rows handed out plus remaining
      budget is always L, and the rows handed out are the first L of the stream, or all of it if it is shorter or the
      iterator is unlimited: with IDs, scores, group-by values and all fields but the dynamic ones in any case, and with
      these exactly if no batch that has them is cut. */
  lemma {:induction false} IteratorReturnsPrefix(limit: int, replies: seq<Reply>)
    requires limit >= UNLIMITED && AllUsable(replies)
    ensures var (l, hits) := Drained(limit, replies);
            var stream := StreamHits(replies);
            && (limit == UNLIMITED ==> l == UNLIMITED && hits == stream)
            && (limit != UNLIMITED ==>
                  && 0 <= l && l + |hits| == limit
                  && AllSameButDynamic(hits, Take(stream, limit))
                  && (hits == Take(stream, limit) <==> !SomeCutDynamic(limit, replies)))
  {
    if replies != [] {
      var front, last := replies[..|replies|-1], replies[|replies|-1];
      IteratorReturnsPrefix(limit, front);
      var (l, hits) := Drained(limit, front);
      NextHandsOut(l, last);
      if limit != UNLIMITED {
        var batch, got := RowsOf(Fetched(last)), RowsOf(After(l, last).1);
        TakeMore(StreamHits(front), batch, limit, hits, got);
        LeftIsBudget(StreamHits(front), limit, hits, last);
      }
    }
  }

  /** What is left of the budget is the limit less the stream so far, if that is positive. */
  lemma LeftIsBudget(stream: seq<Hit>, limit: nat, hits: seq<Hit>, last: Reply)
    requires |hits| == |Take(stream, limit)| && Usable(last)
    ensures CutsDynamic(limit - |stream|, last) <==> CutsDynamic(limit - |hits|, last)
  {
  }

  function Take(hits: seq<Hit>, n: nat): (r: seq<Hit>)
    ensures |r| <= n
  {
    hits[..if |hits| < n then |hits| else n]
  }

  lemma TakeMore(stream: seq<Hit>, batch: seq<Hit>, limit: nat, hits: seq<Hit>, got: seq<Hit>)
    requires |hits| == |Take(stream, limit)|
    requires AllSameButDynamic(hits, Take(stream, limit)) && AllSameButDynamic(got, Take(batch, limit - |hits|))
    ensures AllSameButDynamic(hits + got, Take(stream + batch, limit))
    ensures hits + got == Take(stream + batch, limit)
            <==> hits == Take(stream, limit) && got == Take(batch, limit - |hits|)
  {
    var a, b := Take(stream, limit), Take(batch, limit - |hits|);
    assert Take(stream + batch, limit) == a + b;
    assert hits + got == a + b ==> hits == a && got == b by {
      if hits + got == a + b {
        assert (hits + got)[..|hits|] == hits && (a + b)[..|a|] == a;
        assert (hits + got)[|hits|..] == got && (a + b)[|a|..] == b;
      }
    }
  }
}
