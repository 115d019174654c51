/** The delete map that compaction composes from delta logs, and the filter that decides with it, and with a
    time to live, which rows compaction keeps. */
module DeleteFilters {
  import opened Wrappers

  type Timestamp = nat

  datatype Record<K> = Record(pk: K, ts: Timestamp)

  /** What the delta-log reader gives next; the end of the log is the end of the sequence. */
  datatype Reading<K> = Entry(record: Record<K>) | Broken

  function Put<K>(m: map<K, Timestamp>, r: Record<K>): map<K, Timestamp> {
    if r.pk in m && m[r.pk] > r.ts then m else m[r.pk := r.ts]
  }

  function Fold<K>(records: seq<Record<K>>): map<K, Timestamp> {
    if records == [] then map[] else Put(Fold(records[..|records|-1]), records[|records|-1])
  }

  function RecordsOf<K>(log: seq<Reading<K>>): (records: seq<Record<K>>)
    requires forall i :: 0 <= i < |log| ==> log[i].Entry?
    ensures |records| == |log|
    ensures forall i :: 0 <= i < |log| ==> records[i] == log[i].record
  {
    seq(|log|, i requires 0 <= i < |log| => log[i].record)
  }

  /** Reads the whole log, and keeps for every key the newest deletion; a read error gives no map at all. */
  method ComposeDeleteFromDeltalogs<K(==)>(log: seq<Reading<K>>) returns (r: Option<map<K, Timestamp>>)
    ensures r.Some? <==> forall i :: 0 <= i < |log| ==> log[i].Entry?
    ensures r.Some? ==> r.value == Fold(RecordsOf(log))
  {
    var pk2Ts: map<K, Timestamp> := map[];
    for i := 0 to |log|
      invariant forall j :: 0 <= j < i ==> log[j].Entry?
      invariant pk2Ts == Fold(RecordsOf(log[..i]))
    {
      if log[i].Broken? {
        return None;
      }
      var dl := log[i].record;
      assert RecordsOf(log[..i+1])[..i] == RecordsOf(log[..i]);
      if dl.pk in pk2Ts && pk2Ts[dl.pk] > dl.ts {
        continue;
      }
      pk2Ts := pk2Ts[dl.pk := dl.ts];
    }
    assert log[..|log|] == log;
    r := Some(pk2Ts);
  }

  /** m says when each key was last deleted, and knows no other key. */
  ghost predicate Newest<K(!new)>(m: map<K, Timestamp>, records: seq<Record<K>>) {
    && (forall pk :: pk in m <==> Mentions(records, pk))
    && (forall i :: 0 <= i < |records| && records[i].pk in m ==> records[i].ts <= m[records[i].pk])
    && (forall pk :: pk in m ==> Record(pk, m[pk]) in records)
  }

  ghost predicate Mentions<K>(records: seq<Record<K>>, pk: K) {
    exists i :: 0 <= i < |records| && records[i].pk == pk
  }

  lemma MentionsNext<K>(records: seq<Record<K>>, r: Record<K>, pk: K)
    ensures Mentions(records + [r], pk) <==> Mentions(records, pk) || r.pk == pk
  {
    if Mentions(records, pk) {
      var i :| 0 <= i < |records| && records[i].pk == pk;
      assert (records + [r])[i].pk == pk;
    }
    assert (records + [r])[|records|] == r;
  }

  lemma PutIsNewest<K(!new)>(m: map<K, Timestamp>, records: seq<Record<K>>, r: Record<K>)
    requires Newest(m, records)
    ensures Newest(Put(m, r), records + [r])
  {
    var m', records' := Put(m, r), records + [r];
    forall pk: K
      ensures pk in m' <==> Mentions(records', pk)
    {
      MentionsNext(records, r, pk);
      assert pk in m <==> Mentions(records, pk);
    }
    forall pk | pk in m'
      ensures Record(pk, m'[pk]) in records'
    {
      if pk in m && m'[pk] == m[pk] {
        assert Record(pk, m[pk]) in records;
      } else {
        assert records'[|records|] == Record(pk, m'[pk]);
      }
    }
  }

  lemma {:induction false} FoldIsNewest<K(!new)>(records: seq<Record<K>>)
    ensures Newest(Fold(records), records)
  {
    if records != [] {
      var front, last := records[..|records|-1], records[|records|-1];
      FoldIsNewest(front);
      PutIsNewest(Fold(front), front, last);
      assert front + [last] == records;
    }
  }

  lemma NewestIsUnique<K(!new)>(a: map<K, Timestamp>, b: map<K, Timestamp>,
                                records: seq<Record<K>>, records': seq<Record<K>>)
    requires Newest(a, records) && Newest(b, records')
    requires forall r :: r in records <==> r in records'
    ensures a == b
  {
    forall pk: K
      ensures pk in a <==> pk in b
      ensures pk in a && pk in b ==> a[pk] == b[pk]
    {
      if pk in a {
        NewestBelow(a, b, records, records', pk);
      }
      if pk in b {
        NewestBelow(b, a, records', records, pk);
      }
    }
  }

  lemma NewestBelow<K(!new)>(a: map<K, Timestamp>, b: map<K, Timestamp>,
                             records: seq<Record<K>>, records': seq<Record<K>>, pk: K)
    requires Newest(a, records) && Newest(b, records') && pk in a
    requires forall r :: r in records ==> r in records'
    ensures pk in b && a[pk] <= b[pk]
  {
    assert Record(pk, a[pk]) in records';
    var j :| 0 <= j < |records'| && records'[j] == Record(pk, a[pk]);
    assert Mentions(records', pk);
  }

  /** MAIN RESULT: the map does not depend on the order of the records, on repeated ones, or on how they are spread
      over logs: only on which records there are. */
  lemma OrderDoesNotMatter<K(!new)>(records: seq<Record<K>>, records': seq<Record<K>>)
    requires forall r :: r in records <==> r in records'
    ensures Fold(records) == Fold(records')
  {
    FoldIsNewest(records);
    FoldIsNewest(records');
    NewestIsUnique(Fold(records), Fold(records'), records, records');
  }

  // ----- The filter -----

  const NANOS_PER_MILLI := 1000000

  /** How the filter tells time: the milliseconds of a timestamp, the time to live in nanoseconds and the time of
      the compaction in milliseconds. */
  datatype Clock = Clock(millisOf: Timestamp -> int, ttl: int, now: int)

  predicate Expired(c: Clock, ts: Timestamp) {
    c.ttl > 0 && c.ttl / NANOS_PER_MILLI <= c.now - c.millisOf(ts)
  }

  /** In whole units of time: the age in milliseconds, counted to the end of the last one, is more than the time to live
      in nanoseconds. Without a positive time to live nothing expires. */
  lemma ExpiredIff(c: Clock, ts: Timestamp)
    ensures Expired(c, ts) <==> c.ttl > 0 && c.ttl < (c.now - c.millisOf(ts) + 1) * 1000000
  {
  }

  predicate Deleted<K>(m: map<K, Timestamp>, pk: K, ts: Timestamp) {
    pk in m && ts < m[pk]
  }

  // ----- Which deletions met a row -----

  /** How many of the rows the map deletes. */
  function DeletedRows<K>(m: map<K, Timestamp>, rows: seq<Record<K>>): (n: nat)
    ensures n <= |rows|
  {
    if rows == [] then 0
    else
      var row := rows[|rows|-1];
      DeletedRows(m, rows[..|rows|-1]) + (if Deleted(m, row.pk, row.ts) then 1 else 0)
  }

  /** The deleted keys that delete one of the rows. */
  ghost function MetKeys<K>(m: map<K, Timestamp>, rows: seq<Record<K>>): set<K> {
    set i | 0 <= i < |rows| && Deleted(m, rows[i].pk, rows[i].ts) :: rows[i].pk
  }

  /** The deletions that met no row. */
  ghost function Missing<K>(m: map<K, Timestamp>, rows: seq<Record<K>>): set<K> {
    m.Keys - MetKeys(m, rows)
  }

  /** No key deletes two rows. */
  ghost predicate MetOnce<K>(m: map<K, Timestamp>, rows: seq<Record<K>>) {
    forall i, j :: 0 <= i < j < |rows| && Deleted(m, rows[i].pk, rows[i].ts) && Deleted(m, rows[j].pk, rows[j].ts) ==>
      rows[i].pk != rows[j].pk
  }

  lemma MetNext<K>(m: map<K, Timestamp>, rows: seq<Record<K>>, row: Record<K>)
    ensures MetKeys(m, rows + [row]) == MetKeys(m, rows) + (if Deleted(m, row.pk, row.ts) then {row.pk} else {})
    ensures MetOnce(m, rows + [row])
            <==> MetOnce(m, rows) && (Deleted(m, row.pk, row.ts) ==> row.pk !in MetKeys(m, rows))
    ensures DeletedRows(m, rows + [row]) == DeletedRows(m, rows) + (if Deleted(m, row.pk, row.ts) then 1 else 0)
  {
    var all, n := rows + [row], |rows|;
    assert all[..n] == rows && all[n] == row;
    forall pk | pk in MetKeys(m, rows)
      ensures pk in MetKeys(m, all)
    {
      var i :| 0 <= i < n && Deleted(m, rows[i].pk, rows[i].ts) && rows[i].pk == pk;
      assert all[i] == rows[i];
    }
    assert forall i :: 0 <= i < n ==> all[i] == rows[i];
    assert Deleted(m, row.pk, row.ts) ==> all[n].pk in MetKeys(m, all);
  }

  /** There are at least as many deleted rows as keys that met one, and as many exactly if no key deletes two. */
  lemma {:induction false} MetCount<K>(m: map<K, Timestamp>, rows: seq<Record<K>>)
    ensures MetKeys(m, rows) <= m.Keys
    ensures |MetKeys(m, rows)| <= DeletedRows(m, rows)
    ensures |MetKeys(m, rows)| == DeletedRows(m, rows) <==> MetOnce(m, rows)
  {
    if rows != [] {
      var front, row := rows[..|rows|-1], rows[|rows|-1];
      MetCount(m, front);
      MetNext(m, front, row);
      assert front + [row] == rows;
    } else {
      assert MetKeys(m, rows) == {};
    }
  }

  lemma MissingCount<K>(m: map<K, Timestamp>, rows: seq<Record<K>>)
    ensures |Missing(m, rows)| == |m.Keys| - |MetKeys(m, rows)|
  {
    MetCount(m, rows);
    assert m.Keys == Missing(m, rows) + MetKeys(m, rows);
  }

  class EntityFilter<K(==)> {
    const deletedPkTs: map<K, Timestamp>
    const clock: Clock
    var expiredCount: nat
    var deletedCount: nat
    /** The rows that have been looked at. */
    ghost var seen: seq<Record<K>>

    ghost predicate Valid()
      reads this
    {
      deletedCount == DeletedRows(deletedPkTs, seen)
    }

    constructor (deletedPkTs: map<K, Timestamp>, clock: Clock)
      ensures this.deletedPkTs == deletedPkTs && this.clock == clock
      ensures Valid() && seen == [] && expiredCount == 0 && deletedCount == 0
    {
      this.deletedPkTs, this.clock := deletedPkTs, clock;
      expiredCount, deletedCount := 0, 0;
      seen := [];
    }

    /** Deletion is looked at before expiry, and only one of the two counters moves. */
    method Filtered(pk: K, ts: Timestamp) returns (b: bool)
      requires Valid()
      modifies this
      ensures Valid() && seen == old(seen) + [Record(pk, ts)]
      ensures b == (Deleted(deletedPkTs, pk, ts) || Expired(clock, ts))
      ensures var deleted := pk in deletedPkTs && ts < deletedPkTs[pk];
              && (deleted ==> b)
              && (!deleted ==>
                    (b <==> clock.ttl > 0 && clock.ttl < (clock.now - clock.millisOf(ts) + 1) * 1000000))
      ensures deletedCount == old(deletedCount) + (if Deleted(deletedPkTs, pk, ts) then 1 else 0)
      ensures expiredCount == old(expiredCount) + (if b && !Deleted(deletedPkTs, pk, ts) then 1 else 0)
    {
      MetNext(deletedPkTs, seen, Record(pk, ts));
      ExpiredIff(clock, ts);
      seen := seen + [Record(pk, ts)];
      if Deleted(deletedPkTs, pk, ts) {
        deletedCount := deletedCount + 1;
        return true;
      }
      if Expired(clock, ts) {
        expiredCount := expiredCount + 1;
        return true;
      }
      b := false;
    }

    /** Deleted keys minus deleted rows. It never exceeds the number of deletions that met no row, and is that number
        exactly if no key has deleted two rows or none is missing. */
    method GetMissingDeleteCount() returns (diff: int)
      requires Valid()
      ensures 0 <= diff <= |Missing(deletedPkTs, seen)|
      ensures diff == |Missing(deletedPkTs, seen)| <==> MetOnce(deletedPkTs, seen) || Missing(deletedPkTs, seen) == {}
    {
      MetCount(deletedPkTs, seen);
      MissingCount(deletedPkTs, seen);
      diff := |deletedPkTs| - deletedCount;
      if diff <= 0 {
        diff := 0;
      }
      assert |deletedPkTs| == |deletedPkTs.Keys|;
    }

    /** A compaction pass: what is kept, and every row that is not is counted once. */
    method Pass(rows: seq<Record<K>>) returns (kept: seq<Record<K>>)
      requires Valid()
      modifies this
      ensures Valid() && seen == old(seen) + rows
      ensures kept == Keep(deletedPkTs, clock, rows)
      ensures deletedCount + expiredCount + |kept| == old(deletedCount) + old(expiredCount) + |rows|
    {
      kept := [];
      for i := 0 to |rows|
        invariant Valid() && seen == old(seen) + rows[..i]
        invariant kept == Keep(deletedPkTs, clock, rows[..i])
        invariant deletedCount + expiredCount + |kept| == old(deletedCount) + old(expiredCount) + i
      {
        assert rows[..i+1][..i] == rows[..i];
        assert rows[i] == Record(rows[i].pk, rows[i].ts);
        var gone := Filtered(rows[i].pk, rows[i].ts);
        if !gone {
          kept := kept + [rows[i]];
        }
      }
      assert rows[..|rows|] == rows;
    }
  }

  /** Two rows of one deleted key hide that another deleted key met no row: the difference of the counts is 0. */
  lemma SecondRowHidesAMiss<K>(m: map<K, Timestamp>, a: K, b: K, rows: seq<Record<K>>)
    requires m.Keys == {a, b} && a != b && |rows| == 2 && rows[0] == rows[1]
    requires rows[0].pk == a && rows[0].ts < m[a]
    ensures |m| - DeletedRows(m, rows) == 0 && Missing(m, rows) == {b}
  {
    assert DeletedRows(m, rows) == DeletedRows(m, rows[..1]) + 1;
    assert DeletedRows(m, rows[..1]) == DeletedRows(m, rows[..1][..0]) + 1;
    assert Deleted(m, rows[0].pk, rows[0].ts);
    assert MetKeys(m, rows) == {a};
    assert |m| == |m.Keys| == 2;
  }

  function Keep<K>(m: map<K, Timestamp>, c: Clock, rows: seq<Record<K>>): (kept: seq<Record<K>>)
    ensures |kept| <= |rows|
  {
    if rows == [] then []
    else
      var row := rows[|rows|-1];
      Keep(m, c, rows[..|rows|-1])
      + (if Deleted(m, row.pk, row.ts) || Expired(c, row.ts) then [] else [row])
  }

  /** A row is kept exactly if no later deletion of its key is in the map and it has not reached a positive time to
      live. */
  lemma {:induction false} KeptIff<K>(m: map<K, Timestamp>, c: Clock, rows: seq<Record<K>>, row: Record<K>)
    ensures row in Keep(m, c, rows)
            <==> && row in rows
                 && (row.pk in m ==> m[row.pk] <= row.ts)
                 && (c.ttl <= 0 || (c.now - c.millisOf(row.ts) + 1) * 1000000 <= c.ttl)
  {
    if rows != [] {
      KeptIff(m, c, rows[..|rows|-1], row);
      ExpiredIff(c, row.ts);
    }
  }

  /** Some record deletes the key strictly after the row was written. */
  ghost predicate DeletedByScan<K>(records: seq<Record<K>>, pk: K, ts: Timestamp) {
    exists i :: 0 <= i < |records| && records[i].pk == pk && records[i].ts > ts
  }

  /** The map decides as a scan of all delete records would; a deletion at the row's own timestamp, which an upsert
      produces, does not count. */
  lemma {:induction false} MapAgreesWithScan<K(!new)>(records: seq<Record<K>>, pk: K, ts: Timestamp)
    ensures Deleted(Fold(records), pk, ts) <==> DeletedByScan(records, pk, ts)
  {
    FoldIsNewest(records);
    var m := Fold(records);
    if Deleted(m, pk, ts) {
      var i :| 0 <= i < |records| && records[i] == Record(pk, m[pk]);
    }
    if DeletedByScan(records, pk, ts) {
      var i :| 0 <= i < |records| && records[i].pk == pk && records[i].ts > ts;
      assert Mentions(records, pk);
    }
  }

  lemma ScanAppend<K>(a: seq<Record<K>>, b: seq<Record<K>>, pk: K, ts: Timestamp)
    ensures DeletedByScan(a + b, pk, ts) <==> DeletedByScan(a, pk, ts) || DeletedByScan(b, pk, ts)
  {
    if DeletedByScan(a, pk, ts) {
      var i :| 0 <= i < |a| && a[i].pk == pk && a[i].ts > ts;
      assert (a + b)[i] == a[i];
    }
    if DeletedByScan(b, pk, ts) {
      var i :| 0 <= i < |b| && b[i].pk == pk && b[i].ts > ts;
      assert (a + b)[|a| + i] == b[i];
    }
  }

  /** MAIN RESULT: a pass with the deletions D1 and a later pass with D2 keep exactly the rows that one pass at the
      later time keeps with all deletions. */
  lemma {:induction false} PassesCompose<K(!new)>(d1: seq<Record<K>>, d2: seq<Record<K>>, c1: Clock, c2: Clock,
                                                  rows: seq<Record<K>>)
    requires c1.millisOf == c2.millisOf && c1.ttl == c2.ttl && c1.now <= c2.now
    ensures Keep(Fold(d2), c2, Keep(Fold(d1), c1, rows)) == Keep(Fold(d1 + d2), c2, rows)
  {
    if rows != [] {
      var front, row := rows[..|rows|-1], rows[|rows|-1];
      PassesCompose(d1, d2, c1, c2, front);
      MapAgreesWithScan(d1, row.pk, row.ts);
      MapAgreesWithScan(d2, row.pk, row.ts);
      MapAgreesWithScan(d1 + d2, row.pk, row.ts);
      ScanAppend(d1, d2, row.pk, row.ts);
      var once := Keep(Fold(d1), c1, front);
      assert (once + [row])[..|once + [row]|-1] == once;
      assert once + [] == once;
    }
  }
}
