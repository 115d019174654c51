/** The two encodings of a nullable column as values: compact, where only the valid cells are stored,
    and sparse, where every position is stored and the null ones hold fillers. */
module NullableCells {
  import opened Wrappers

  /** How many of the first k cells are valid. */
  function CountTo(valid: seq<bool>, k: nat): (n: nat)
    requires k <= |valid|
    ensures n <= k
  {
    if k == 0 then 0 else CountTo(valid, k - 1) + (if valid[k-1] then 1 else 0)
  }

  function CountValid(valid: seq<bool>): (n: nat)
    ensures n <= |valid|
  {
    CountTo(valid, |valid|)
  }

  /** For each position, how many valid cells come before it, or -1 where the cell is null. */
  function Rank(valid: seq<bool>): (r: seq<int>)
    ensures |r| == |valid|
    ensures forall i {:trigger r[i]} :: 0 <= i < |valid| ==> r[i] == if valid[i] then CountTo(valid, i) else -1
  {
    seq(|valid|, i requires 0 <= i < |valid| => if valid[i] then CountTo(valid, i) else -1)
  }

  /** The cells a compact column stands for: its values, spread over the valid positions in order. */
  function CompactCells<T>(values: seq<T>, valid: seq<bool>): (cells: seq<Option<T>>)
    requires |values| == CountValid(valid)
    ensures |cells| == |valid|
    ensures forall i {:trigger CountTo(valid, i)} :: 0 <= i < |valid| && valid[i] ==> CountTo(valid, i) < |values|
    ensures forall i {:trigger cells[i]} :: 0 <= i < |valid| ==>
              cells[i] == if valid[i] then Some(values[CountTo(valid, i)]) else None
  {
    RanksBelow(valid);
    seq(|valid|, i requires 0 <= i < |valid| => if valid[i] then Some(values[CountTo(valid, i)]) else None)
  }

  /** The cells a sparse column stands for. */
  function SparseCells<T>(values: seq<T>, valid: seq<bool>): (cells: seq<Option<T>>)
    requires |values| == |valid|
    ensures |cells| == |valid|
    ensures forall i :: 0 <= i < |valid| ==> cells[i] == if valid[i] then Some(values[i]) else None
  {
    seq(|valid|, i requires 0 <= i < |valid| => if valid[i] then Some(values[i]) else None)
  }

  /** The cells of a column without nulls. */
  function AllSome<T>(values: seq<T>): (cells: seq<Option<T>>)
    ensures |cells| == |values|
    ensures forall i :: 0 <= i < |values| ==> cells[i] == Some(values[i])
  {
    seq(|values|, i requires 0 <= i < |values| => Some(values[i]))
  }

  /** Every valid position among the first k is a position of values. */
  predicate InRangeTo(valid: seq<bool>, k: nat, n: nat)
    requires k <= |valid|
  {
    forall i :: 0 <= i < k && valid[i] ==> i < n
  }

  predicate InRange(valid: seq<bool>, n: nat) {
    InRangeTo(valid, |valid|, n)
  }

  /** The values at the valid positions among the first k, in order. */
  function PackTo<T>(values: seq<T>, valid: seq<bool>, k: nat): (packed: seq<T>)
    requires k <= |valid| && InRangeTo(valid, k, |values|)
    ensures |packed| == CountTo(valid, k)
  {
    if k == 0 then []
    else PackTo(values, valid, k - 1) + (if valid[k-1] then [values[k-1]] else [])
  }

  function Pack<T>(values: seq<T>, valid: seq<bool>): (packed: seq<T>)
    requires InRange(valid, |values|)
    ensures |packed| == CountValid(valid)
  {
    PackTo(values, valid, |valid|)
  }

  lemma {:induction false} CountMonotone(valid: seq<bool>, i: nat, j: nat)
    requires i <= j <= |valid|
    ensures CountTo(valid, i) <= CountTo(valid, j) <= CountTo(valid, i) + (j - i)
    decreases j
  {
    if i < j {
      CountMonotone(valid, i, j - 1);
    }
  }

  lemma RanksBelow(valid: seq<bool>)
    ensures forall i {:trigger CountTo(valid, i)} :: 0 <= i < |valid| && valid[i] ==>
              CountTo(valid, i) < CountValid(valid)
  {
    forall i | 0 <= i < |valid| && valid[i]
      ensures CountTo(valid, i) < CountValid(valid)
    {
      assert CountTo(valid, i + 1) == CountTo(valid, i) + 1;
      CountMonotone(valid, i + 1, |valid|);
    }
  }

  /** Counting looks only at the flags it counts. */
  lemma {:induction false} CountSame(a: seq<bool>, b: seq<bool>, k: nat)
    requires k <= |a| && k <= |b| && a[..k] == b[..k]
    ensures CountTo(a, k) == CountTo(b, k)
  {
    if k > 0 {
      assert a[..k-1] == a[..k][..k-1] == b[..k][..k-1] == b[..k-1];
      assert a[k-1] == a[..k][k-1] == b[..k][k-1] == b[k-1];
      CountSame(a, b, k - 1);
    }
  }

  lemma SubSlice<T>(s: seq<T>, off: nat, n: nat, a: nat, b: nat)
    requires a <= b <= n && off + n <= |s|
    ensures s[off..off+n][a..b] == s[off+a..off+b]
  {
    var t, u := s[off..off+n][a..b], s[off+a..off+b];
    forall i | 0 <= i < |t|
      ensures t[i] == u[i]
    {
      assert s[off..off+n][a+i] == s[off+(a+i)];
    }
  }

  // ----- A nullable column as a value -----

  datatype Stored<T> = Stored(values: seq<T>, valid: seq<bool>, mapping: seq<int>)

  /** What appending one cell does to a nullable column. In sparse mode a null stores no filler. */
  function Append<T>(s: Stored<T>, sparse: bool, cell: Option<T>): Stored<T> {
    match cell
    case Some(v) => Stored(s.values + [v], s.valid + [true], s.mapping + [|s.values|])
    case None => Stored(s.values, s.valid + [false], if sparse then s.mapping else s.mapping + [-1])
  }

  function AppendAll<T>(s: Stored<T>, sparse: bool, cells: seq<Option<T>>): Stored<T>
    decreases cells
  {
    if cells == [] then s else AppendAll(Append(s, sparse, cells[0]), sparse, cells[1..])
  }

  /** What ValidateNullable accepts, after it has set the mapping of a compact column. */
  predicate Validates<T>(s: Stored<T>, sparse: bool) {
    if sparse then |s.values| == |s.valid| else |s.values| == CountValid(s.valid)
  }

  /** A compact column whose mapping is up to date. */
  ghost predicate Consistent<T>(s: Stored<T>) {
    |s.values| == CountValid(s.valid) && s.mapping == Rank(s.valid)
  }

  /** Reading cell idx. The range check compares the mapped index with the number of cells. */
  function Get<T>(s: Stored<T>, sparse: bool, idx: int): Result<T> {
    if !sparse && !(0 <= idx < |s.mapping|) then Panic
    else
      var at := if sparse then idx else s.mapping[idx];
      if at < 0 || at >= |s.valid| then Err
      else if at >= |s.values| then Panic
      else Ok(s.values[at])
  }

  /** What reading a cell should give. */
  function CellResult<T>(cell: Option<T>): Result<T> {
    match cell
    case Some(v) => Ok(v)
    case None => Err
  }

  /** One appended cell becomes the last logical cell, and the column stays consistent. */
  lemma AppendCompact<T>(s: Stored<T>, cell: Option<T>)
    requires Consistent(s)
    ensures var s' := Append(s, false, cell);
            && Consistent(s')
            && CompactCells(s'.values, s'.valid) == CompactCells(s.values, s.valid) + [cell]
  {
    var s' := Append(s, false, cell);
    var n := |s.valid|;
    forall i | 0 <= i <= n
      ensures CountTo(s'.valid, i) == CountTo(s.valid, i)
    {
      CountSame(s'.valid, s.valid, i);
    }
    assert CountTo(s'.valid, n + 1) == CountTo(s.valid, n) + (if cell.Some? then 1 else 0);
  }

  /** MAIN RESULT: a compact column represents exactly the cells appended to it, in any order of values
      and nulls, and the mapping it kept on the way is the one validation would compute. */
  lemma {:induction false} AppendsRepresentCells<T>(s: Stored<T>, cells: seq<Option<T>>)
    requires Consistent(s)
    ensures var s' := AppendAll(s, false, cells);
            && Consistent(s')
            && CompactCells(s'.values, s'.valid) == CompactCells(s.values, s.valid) + cells
    decreases cells
  {
    var before := CompactCells(s.values, s.valid);
    if cells == [] {
      assert before + [] == before;
    } else {
      AppendCompact(s, cells[0]);
      AppendsRepresentCells(Append(s, false, cells[0]), cells[1..]);
      Associative(before, [cells[0]], cells[1..]);
      assert [cells[0]] + cells[1..] == cells;
    }
  }

  /** Get on a compact column returns exactly the logical cell and fails exactly on nulls; past the end it panics. */
  lemma GetIsTheCell<T>(s: Stored<T>, idx: int)
    requires Consistent(s)
    ensures Get(s, false, idx) ==
            if !(0 <= idx < |s.valid|) then Panic
            else CellResult(CompactCells(s.values, s.valid)[idx])
  {
    RanksBelow(s.valid);
  }

  /** Get on a sparse column never looks at the flags: it gives whatever is stored, so it is the logical cell exactly
      where the cell is valid, and a null reads as its filler, without an error. */
  lemma SparseGetIsTheCellIff<T>(s: Stored<T>, idx: int)
    requires Validates(s, true)
    ensures Get(s, true, idx) == if 0 <= idx < |s.valid| then Ok(s.values[idx]) else Err
    ensures 0 <= idx < |s.valid| ==>
              (Get(s, true, idx) == CellResult(SparseCells(s.values, s.valid)[idx]) <==> s.valid[idx])
  {
  }

  /** Appending to a sparse column keeps it valid if and only if no null is appended. */
  lemma {:induction false} SparseAppendsValidIff<T>(s: Stored<T>, cells: seq<Option<T>>)
    requires |s.values| == |s.valid|
    ensures Validates(AppendAll(s, true, cells), true) <==> forall i :: 0 <= i < |cells| ==> cells[i].Some?
  {
    SparseAppendsLengths(s, cells);
    if forall i :: 0 <= i < |cells| ==> cells[i].Some? {
      CountAll(cells);
    } else {
      CountSome(cells);
    }
  }

  function Nulls<T>(cells: seq<Option<T>>): nat {
    if cells == [] then 0 else (if cells[0].None? then 1 else 0) + Nulls(cells[1..])
  }

  lemma {:induction false} SparseAppendsLengths<T>(s: Stored<T>, cells: seq<Option<T>>)
    ensures var s' := AppendAll(s, true, cells);
            && |s'.valid| == |s.valid| + |cells|
            && |s'.values| == |s.values| + |cells| - Nulls(cells)
    decreases cells
  {
    if cells != [] {
      SparseAppendsLengths(Append(s, true, cells[0]), cells[1..]);
    }
  }

  lemma {:induction false} CountAll<T>(cells: seq<Option<T>>)
    requires forall i :: 0 <= i < |cells| ==> cells[i].Some?
    ensures Nulls(cells) == 0
  {
    if cells != [] {
      CountAll(cells[1..]);
    }
  }

  lemma {:induction false} CountSome<T>(cells: seq<Option<T>>)
    requires exists i :: 0 <= i < |cells| && cells[i].None?
    ensures Nulls(cells) > 0
  {
    if cells[0].Some? {
      var i :| 0 <= i < |cells| && cells[i].None?;
      assert cells[1..][i-1].None?;
      CountSome(cells[1..]);
    }
  }

  // ----- From sparse to compact -----

  /** The value of a valid position ends up at its rank. */
  lemma {:induction false} PackAt<T>(values: seq<T>, valid: seq<bool>, k: nat, i: nat)
    requires i < k <= |valid| && InRangeTo(valid, k, |values|) && valid[i]
    ensures CountTo(valid, i) < CountTo(valid, k)
    ensures PackTo(values, valid, k)[CountTo(valid, i)] == values[i]
    decreases k
  {
    CountMonotone(valid, i + 1, k);
    if i < k - 1 {
      PackAt(values, valid, k - 1, i);
    }
  }

  /** MAIN RESULT: packing a sparse column and reading the result as a compact one gives the same cells. */
  lemma PackKeepsCells<T>(values: seq<T>, valid: seq<bool>)
    requires |values| == |valid|
    ensures CompactCells(Pack(values, valid), valid) == SparseCells(values, valid)
  {
    var cells := CompactCells(Pack(values, valid), valid);
    forall i | 0 <= i < |valid|
      ensures cells[i] == SparseCells(values, valid)[i]
    {
      if valid[i] {
        PackAt(values, valid, |valid|, i);
      }
    }
  }

  /** Packing up to a+k is packing up to a and then k more cells; vs and fs are the values and flags from a to b. */
  lemma {:induction false} PackSplit<T>(values: seq<T>, valid: seq<bool>, a: nat, b: nat,
                                        vs: seq<T>, fs: seq<bool>, k: nat)
    requires |values| == |valid| && a <= b <= |valid| && k <= b - a
    requires vs == values[a..b] && fs == valid[a..b]
    ensures PackTo(values, valid, a + k) == PackTo(values, valid, a) + PackTo(vs, fs, k)
  {
    if k > 0 {
      assert fs[k-1] == valid[a+k-1] && vs[k-1] == values[a+k-1];
      PackSplit(values, valid, a, b, vs, fs, k - 1);
      Associative(PackTo(values, valid, a), PackTo(vs, fs, k - 1), if fs[k-1] then [vs[k-1]] else []);
    }
  }

  lemma {:induction false} PackExtends<T>(values: seq<T>, valid: seq<bool>, i: nat, j: nat)
    requires i <= j <= |valid| && InRangeTo(valid, j, |values|)
    ensures PackTo(values, valid, i) <= PackTo(values, valid, j)
    decreases j
  {
    if i < j {
      PackExtends(values, valid, i, j - 1);
    }
  }

  /** Slicing a sparse column and then packing it cuts the packed column at the ranks of the bounds. */
  lemma PackOfSlice<T>(values: seq<T>, valid: seq<bool>, a: nat, b: nat)
    requires |values| == |valid| && a <= b <= |valid|
    ensures CountTo(valid, a) <= CountTo(valid, b) <= CountValid(valid)
    ensures Pack(values[a..b], valid[a..b]) == Pack(values, valid)[CountTo(valid, a)..CountTo(valid, b)]
  {
    CountMonotone(valid, a, b);
    CountMonotone(valid, b, |valid|);
    PackOfPart(values, valid, a, b, values[a..b], valid[a..b]);
    PackExtends(values, valid, b, |valid|);
    MiddlePart(PackTo(values, valid, a), Pack(values[a..b], valid[a..b]), Pack(values, valid));
  }

  lemma PackOfPart<T>(values: seq<T>, valid: seq<bool>, a: nat, b: nat, vs: seq<T>, fs: seq<bool>)
    requires |values| == |valid| && a <= b <= |valid|
    requires vs == values[a..b] && fs == valid[a..b]
    ensures PackTo(values, valid, b) == PackTo(values, valid, a) + Pack(vs, fs)
    ensures |PackTo(values, valid, a)| == CountTo(valid, a)
    ensures |PackTo(values, valid, a) + Pack(vs, fs)| == CountTo(valid, b)
  {
    PackSplit(values, valid, a, b, vs, fs, |fs|);
  }

  lemma MiddlePart<T>(a: seq<T>, b: seq<T>, all: seq<T>)
    requires a + b <= all
    ensures all[|a|..|a + b|] == b
  {
    forall i | 0 <= i < |b|
      ensures all[|a| + i] == b[i]
    {
      assert (a + b)[|a| + i] == b[i];
    }
  }

  /** Slicing before or after taking the logical view agrees, for a sparse column and for one without nulls. */
  lemma SlicedCells<T>(values: seq<T>, valid: seq<bool>, a: nat, b: nat)
    requires |values| == |valid| && a <= b <= |valid|
    ensures SparseCells(values[a..b], valid[a..b]) == SparseCells(values, valid)[a..b]
    ensures AllSome(values[a..b]) == AllSome(values)[a..b]
  {
  }

  /** Exactly when a column that has been compacted in place can be compacted again without running off the
      end of its values: no null comes before a valid cell. */
  lemma CompactTwiceIff(valid: seq<bool>)
    ensures InRange(valid, CountValid(valid)) <==> forall i, j :: 0 <= i < j < |valid| && valid[j] ==> valid[i]
  {
    if InRange(valid, CountValid(valid)) {
      forall i, j | 0 <= i < j < |valid| && valid[j]
        ensures valid[i]
      {
        if !valid[i] {
          var last := LastValid(valid, j);
          CountWithGap(valid, i, last);
        }
      }
    }
    if forall i, j :: 0 <= i < j < |valid| && valid[j] ==> valid[i] {
      forall j | 0 <= j < |valid| && valid[j]
        ensures j < CountValid(valid)
      {
        CountFull(valid, j + 1);
        CountMonotone(valid, j + 1, |valid|);
      }
    }
  }

  /** ... and then a second time changes nothing. */
  lemma CompactTwiceIsIdentity<T>(values: seq<T>, valid: seq<bool>)
    requires |values| == |valid| && InRange(valid, CountValid(valid))
    ensures Pack(Pack(values, valid), valid) == Pack(values, valid)
  {
    var once := Pack(values, valid);
    var twice := Pack(once, valid);
    CompactTwiceIff(valid);
    forall i | 0 <= i < CountValid(valid)
      ensures twice[i] == once[i]
    {
      FrontIsValid(valid, i);
      CountFull(valid, i);
      PackAt(once, valid, |valid|, i);
    }
  }

  lemma FrontIsValid(valid: seq<bool>, i: nat)
    requires i < CountValid(valid)
    requires forall i, j :: 0 <= i < j < |valid| && valid[j] ==> valid[i]
    ensures forall k :: 0 <= k <= i ==> valid[k]
  {
    if !valid[i] {
      CountNone(valid, i, |valid|);
    }
  }

  lemma LastValid(valid: seq<bool>, j: nat) returns (last: nat)
    requires j < |valid| && valid[j]
    ensures j <= last < |valid| && valid[last]
    ensures forall k :: last < k < |valid| ==> !valid[k]
    decreases |valid| - j
  {
    if k :| j < k < |valid| && valid[k] {
      last := LastValid(valid, k);
    } else {
      last := j;
    }
  }

  /** A null before the last valid cell makes the count too small to reach it. */
  lemma CountWithGap(valid: seq<bool>, i: nat, last: nat)
    requires i < last < |valid| && !valid[i]
    requires forall k :: last < k < |valid| ==> !valid[k]
    ensures CountValid(valid) <= last
  {
    CountNone(valid, last + 1, |valid|);
    CountMonotone(valid, i + 1, last + 1);
    assert CountTo(valid, i + 1) == CountTo(valid, i);
  }

  lemma {:induction false} CountNone(valid: seq<bool>, i: nat, j: nat)
    requires i <= j <= |valid|
    requires forall k :: i <= k < j ==> !valid[k]
    ensures CountTo(valid, j) == CountTo(valid, i)
    decreases j
  {
    if i < j {
      CountNone(valid, i, j - 1);
    }
  }

  lemma {:induction false} CountFull(valid: seq<bool>, k: nat)
    requires k <= |valid| && forall i :: 0 <= i < k ==> valid[i]
    ensures CountTo(valid, k) == k
  {
    if k > 0 {
      CountFull(valid, k - 1);
    }
  }

  lemma NoneValidIff(valid: seq<bool>)
    ensures CountValid(valid) == 0 <==> forall i :: 0 <= i < |valid| ==> !valid[i]
  {
    if forall i :: 0 <= i < |valid| ==> !valid[i] {
      CountNone(valid, 0, |valid|);
    } else {
      var i :| 0 <= i < |valid| && valid[i];
      CountMonotone(valid, i + 1, |valid|);
    }
  }

  lemma CountFullIff(valid: seq<bool>)
    ensures CountValid(valid) == |valid| <==> forall i :: 0 <= i < |valid| ==> valid[i]
  {
    if forall i :: 0 <= i < |valid| ==> valid[i] {
      CountFull(valid, |valid|);
    }
    if CountValid(valid) == |valid| {
      forall i | 0 <= i < |valid|
        ensures valid[i]
      {
        CountMonotone(valid, 0, i);
        CountMonotone(valid, i + 1, |valid|);
      }
    }
  }
}
