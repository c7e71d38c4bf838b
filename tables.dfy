/** The in-memory record table that the cleaning functions of wrangle.py work
    on, and the data-frame primitives (column selection, boolean row masks,
    `dropna`, column assignment, `concat`) they are written with.

    A table is a sequence of column labels and a sequence of rows; a row holds
    one optional cell per column, `None` standing for a missing value (NaN). */
module Tables {

  datatype Option<+T> = None | Some(value: T)

  /** Why an operation raised instead of returning a table. */
  datatype Error =
    | MissingColumns(labels: seq<string>)  // KeyError / AttributeError: named columns are absent
    | NotNumeric(column: string)           // TypeError: a column compared, added or binned holds a non-number

  datatype Result<+T> = Ok(value: T) | Err(error: Error) {
    predicate IsFailure() { Err? }
    function PropagateFailure<U>(): Result<U> requires Err? { Err(error) }
    function Extract(): T requires Ok? { value }
  }

  /** A present cell: a number, a text, or a categorical cell stored as the
      position of its category (for a binned column, the interval's index). */
  datatype Value = Num(x: real) | Text(s: string) | Code(category: nat)

  type Cell = Option<Value>
  type Row = seq<Cell>

  datatype Table = Table(columns: seq<string>, rows: seq<Row>)

  // Labels of the property table read by more than one cleaning step.
  const Bedrooms: string := "bedroomcnt"
  const Bathrooms: string := "bathroomcnt"
  const SquareFeet: string := "calculatedfinishedsquarefeet"

  /** Every row has one cell per column. */
  predicate Rectangular(t: Table) {
    forall i :: 0 <= i < |t.rows| ==> |t.rows[i]| == |t.columns|
  }

  predicate Distinct(names: seq<string>) {
    forall a, b :: 0 <= a < b < |names| ==> names[a] != names[b]
  }

  /** A data frame as the loader produces it: rectangular, unique labels. */
  predicate Valid(t: Table) {
    Rectangular(t) && Distinct(t.columns)
  }

  predicate NumericOrMissing(c: Cell) {
    c.None? || c.value.Num?
  }

  // ---------------------------------------------------------------------
  // Counting missing cells (`isna().sum()` along either axis)

  /** Number of missing cells in a row. */
  function MissingCells(row: Row): (n: nat)
    ensures n <= |row|
    ensures n == 0 <==> forall j :: 0 <= j < |row| ==> row[j].Some?
  {
    if row == [] then 0
    else MissingCells(row[..|row| - 1]) + (if row[|row| - 1].None? then 1 else 0)
  }

  /** Number of present cells in a row (`count(axis=1)`). */
  function NonMissing(row: Row): nat
  {
    |row| - MissingCells(row)
  }

  /** Number of missing cells in column `j`. */
  function MissingInColumn(rows: seq<Row>, j: nat): (n: nat)
    requires forall i :: 0 <= i < |rows| ==> j < |rows[i]|
    ensures n <= |rows|
  {
    if rows == [] then 0
    else MissingInColumn(rows[..|rows| - 1], j) + (if rows[|rows| - 1][j].None? then 1 else 0)
  }

  /** Number of present cells in column `j` (`count(axis=0)`). */
  function ColumnNonMissing(rows: seq<Row>, j: nat): nat
    requires forall i :: 0 <= i < |rows| ==> j < |rows[i]|
  {
    |rows| - MissingInColumn(rows, j)
  }

  // ---------------------------------------------------------------------
  // Order-preserving selection

  predicate Increasing(idx: seq<nat>) {
    forall a, b :: 0 <= a < b < |idx| ==> idx[a] < idx[b]
  }

  /** `b` can be obtained from `a` by deleting elements: order is kept. */
  ghost predicate Subsequence<T>(a: seq<T>, b: seq<T>)
    decreases |b|
  {
    a == [] ||
    (b != [] &&
      (Subsequence(a, b[..|b| - 1]) ||
       (a[|a| - 1] == b[|b| - 1] && Subsequence(a[..|a| - 1], b[..|b| - 1]))))
  }

  /** The positions of a boolean mask that hold `true`, in ascending order. */
  function Kept(mask: seq<bool>): (idx: seq<nat>)
    ensures Increasing(idx)
    ensures forall k :: 0 <= k < |idx| ==> idx[k] < |mask| && mask[idx[k]]
    ensures forall j :: 0 <= j < |mask| && mask[j] ==> j in idx
  {
    if mask == [] then []
    else Kept(mask[..|mask| - 1]) + (if mask[|mask| - 1] then [|mask| - 1] else [])
  }

  function Project<T>(s: seq<T>, idx: seq<nat>): seq<T>
    requires forall k :: 0 <= k < |idx| ==> idx[k] < |s|
  {
    seq(|idx|, k requires 0 <= k < |idx| => s[idx[k]])
  }

  /** Projecting on ascending positions deletes elements and keeps the order. */
  lemma {:induction false} ProjectIsSubsequence<T>(s: seq<T>, idx: seq<nat>)
    requires Increasing(idx)
    requires forall k :: 0 <= k < |idx| ==> idx[k] < |s|
    ensures Subsequence(Project(s, idx), s)
    decreases |s|
  {
    var p := Project(s, idx);
    if idx != [] {
      var m, n := |idx|, |s|;
      if idx[m - 1] == n - 1 {
        assert forall k :: 0 <= k < m - 1 ==> idx[k] < idx[m - 1];
        ProjectIsSubsequence(s[..n - 1], idx[..m - 1]);
        assert p[..m - 1] == Project(s[..n - 1], idx[..m - 1]);
      } else {
        assert forall k :: 0 <= k < m ==> idx[k] <= idx[m - 1];
        ProjectIsSubsequence(s[..n - 1], idx);
        assert p == Project(s[..n - 1], idx);
      }
    }
  }

  /** A subsequence of a sequence without repeats has no repeats. */
  lemma {:induction false} SubsequenceDistinct(a: seq<string>, b: seq<string>)
    requires Subsequence(a, b) && Distinct(b)
    ensures Distinct(a) && forall x :: x in a ==> x in b
    decreases |b|
  {
    if a != [] {
      var n := |b|;
      if Subsequence(a, b[..n - 1]) {
        SubsequenceDistinct(a, b[..n - 1]);
      } else {
        SubsequenceDistinct(a[..|a| - 1], b[..n - 1]);
        assert a == a[..|a| - 1] + [b[n - 1]];
        assert b[n - 1] !in b[..n - 1];
        assert b[n - 1] !in a[..|a| - 1];
      }
    }
  }

  /** Deleting elements twice is deleting elements once. */
  lemma {:induction false} SubsequenceTrans<T>(a: seq<T>, b: seq<T>, c: seq<T>)
    requires Subsequence(a, b) && Subsequence(b, c)
    ensures Subsequence(a, c)
    decreases |c|
  {
    if a != [] {
      var n := |c|;
      if Subsequence(b, c[..n - 1]) {
        SubsequenceTrans(a, b, c[..n - 1]);
      } else {
        var m := |b|;
        if Subsequence(a, b[..m - 1]) {
          SubsequenceTrans(a, b[..m - 1], c[..n - 1]);
        } else {
          SubsequenceTrans(a[..|a| - 1], b[..m - 1], c[..n - 1]);
        }
      }
    }
  }

  /** Deleting elements never makes a sequence longer. */
  lemma {:induction false} SubsequenceLength<T>(a: seq<T>, b: seq<T>)
    requires Subsequence(a, b)
    ensures |a| <= |b|
    decreases |b|
  {
    if a != [] {
      if Subsequence(a, b[..|b| - 1]) {
        SubsequenceLength(a, b[..|b| - 1]);
      } else {
        SubsequenceLength(a[..|a| - 1], b[..|b| - 1]);
      }
    }
  }

  /** Keeps the columns whose mask entry is `true` (in every row). */
  function KeepColumns(t: Table, mask: seq<bool>): (r: Table)
    requires Rectangular(t) && |mask| == |t.columns|
    ensures Rectangular(r) && |r.rows| == |t.rows|
    ensures r.columns == Project(t.columns, Kept(mask))
    ensures forall i, k :: 0 <= i < |r.rows| && 0 <= k < |r.columns| ==>
              r.rows[i][k] == t.rows[i][Kept(mask)[k]]
  {
    var idx := Kept(mask);
    Table(Project(t.columns, idx), seq(|t.rows|, i requires 0 <= i < |t.rows| => Project(t.rows[i], idx)))
  }

  /** The boolean mask a row test computes, one entry per element. */
  function Mask<T>(s: seq<T>, p: T -> bool): (mask: seq<bool>)
    ensures |mask| == |s|
  {
    seq(|s|, i requires 0 <= i < |s| => p(s[i]))
  }

  /** The rows of `s` that satisfy `p`, in their order (a boolean row mask):
      every copy of a passing row is kept, no failing row is. */
  function Filter<T(==,!new)>(s: seq<T>, p: T -> bool): (r: seq<T>)
    ensures forall x :: x in r <==> x in s && p(x)
    ensures Subsequence(r, s)
  {
    if s == [] then []
    else
      var front := Filter(s[..|s| - 1], p);
      if p(s[|s| - 1]) then
        assert (front + [s[|s| - 1]])[..|front|] == front;
        front + [s[|s| - 1]]
      else front
  }

  /** A filter keeps every copy of a passing row and no failing row. */
  lemma {:induction false} FilterCount<T(!new)>(s: seq<T>, p: T -> bool)
    ensures forall x :: multiset(Filter(s, p))[x] == if p(x) then multiset(s)[x] else 0
  {
    if s != [] {
      var n := |s|;
      FilterCount(s[..n - 1], p);
      assert s == s[..n - 1] + [s[n - 1]];
      assert multiset(s) == multiset(s[..n - 1]) + multiset{s[n - 1]};
    }
  }

  /** Projecting a sequence with one more element at its end, on positions
      that do not reach it. */
  lemma ProjectFront<T>(s: seq<T>, idx: seq<nat>)
    requires s != [] && forall k :: 0 <= k < |idx| ==> idx[k] < |s| - 1
    ensures Project(s, idx) == Project(s[..|s| - 1], idx)
  {
  }

  /** The `true` positions of a mask with one more entry at its end. */
  lemma KeptSnoc(mask: seq<bool>)
    requires mask != []
    ensures Kept(mask) == Kept(mask[..|mask| - 1]) + (if mask[|mask| - 1] then [|mask| - 1] else [])
  {
  }

  /** The `n`-th row a filter keeps is the row at the `n`-th `true` position
      of its mask. */
  lemma {:induction false} FilterPositions<T(!new)>(s: seq<T>, p: T -> bool)
    ensures var idx := Kept(Mask(s, p));
            (forall k :: 0 <= k < |idx| ==> idx[k] < |s|) && Filter(s, p) == Project(s, idx)
  {
    if s != [] {
      var n := |s|;
      var front := s[..n - 1];
      FilterPositions(front, p);
      var mask := Mask(s, p);
      assert mask[..n - 1] == Mask(front, p);
      var idx0 := Kept(Mask(front, p));
      KeptSnoc(mask);
      ProjectFront(s, idx0);
      if p(s[n - 1]) {
        assert Project(s, idx0 + [n - 1]) == Project(s, idx0) + [s[n - 1]];
      }
    }
  }

  /** Filtering with a test every element passes changes nothing. */
  lemma {:induction false} FilterAll<T(!new)>(s: seq<T>, p: T -> bool)
    requires forall x :: x in s ==> p(x)
    ensures Filter(s, p) == s
  {
    if s != [] {
      FilterAll(s[..|s| - 1], p);
      assert s[..|s| - 1] + [s[|s| - 1]] == s;
    }
  }

  /** Two successive filters are one filter by the conjunction. */
  lemma {:induction false} FilterFilter<T(!new)>(s: seq<T>, p: T -> bool, q: T -> bool, both: T -> bool)
    requires forall x :: both(x) == (p(x) && q(x))
    ensures Filter(Filter(s, p), q) == Filter(s, both)
  {
    if s != [] {
      var last := s[|s| - 1];
      FilterFilter(s[..|s| - 1], p, q, both);
      var front := Filter(s[..|s| - 1], p);
      if p(last) {
        assert (front + [last])[..|front|] == front;
      }
    }
  }

  // ---------------------------------------------------------------------
  // Columns by label

  /** Position of the first column labelled `x`. */
  function IndexOf(s: seq<string>, x: string): (i: nat)
    requires x in s
    ensures i < |s| && s[i] == x
    ensures forall k :: 0 <= k < i ==> s[k] != x
  {
    if s[0] == x then 0 else 1 + IndexOf(s[1..], x)
  }

  lemma IndexOfDistinct(s: seq<string>, k: nat)
    requires Distinct(s) && k < |s|
    ensures IndexOf(s, s[k]) == k
  {
  }

  lemma {:induction false} IndexOfAppend(a: seq<string>, b: seq<string>, x: string)
    requires x in a + b
    ensures x in a ==> IndexOf(a + b, x) == IndexOf(a, x)
    ensures x !in a ==> IndexOf(a + b, x) == |a| + IndexOf(b, x)
  {
    var i := IndexOf(a + b, x);
    if x in a {
      var j := IndexOf(a, x);
      assert (a + b)[j] == x;
    } else {
      assert x in b;
      var j := IndexOf(b, x);
      assert (a + b)[|a| + j] == x;
      assert forall k :: 0 <= k < |a| ==> (a + b)[k] == a[k];
      assert forall k :: 0 <= k < j ==> (a + b)[|a| + k] == b[k];
    }
  }

  /** The cell of `row` in the column labelled `name` (`df[name]`). */
  function At(columns: seq<string>, row: Row, name: string): Cell
    requires name in columns && |row| == |columns|
  {
    row[IndexOf(columns, name)]
  }

  /** Every cell of the column labelled `name` is a number or missing. */
  predicate ColumnIsNumeric(t: Table, name: string)
    requires Rectangular(t) && name in t.columns
  {
    forall i | 0 <= i < |t.rows| :: NumericOrMissing(At(t.columns, t.rows[i], name))
  }

  /** The labels after assigning the column `name`: unchanged when the label
      exists, with `name` appended at the end otherwise. */
  function WithLabel(columns: seq<string>, name: string): seq<string> {
    if name in columns then columns else columns + [name]
  }

  /** Column assignment `df[name] = values`: replaces the column in place when
      the label exists, appends it at the end otherwise. */
  function SetColumn(t: Table, name: string, values: seq<Cell>): (r: Table)
    requires Rectangular(t) && |values| == |t.rows|
    ensures Rectangular(r) && |r.rows| == |t.rows|
    ensures r.columns == WithLabel(t.columns, name)
    ensures forall i :: 0 <= i < |r.rows| ==> At(r.columns, r.rows[i], name) == values[i]
    ensures forall i, c :: 0 <= i < |r.rows| && c in t.columns && c != name ==>
              At(r.columns, r.rows[i], c) == At(t.columns, t.rows[i], c)
    ensures Distinct(t.columns) ==> Distinct(r.columns)
  {
    if name in t.columns then
      var j := IndexOf(t.columns, name);
      Table(t.columns, seq(|t.rows|, i requires 0 <= i < |t.rows| => t.rows[i][j := values[i]]))
    else
      var r := Table(t.columns + [name], seq(|t.rows|, i requires 0 <= i < |t.rows| => t.rows[i] + [values[i]]));
      assert forall c :: c in t.columns ==> IndexOf(r.columns, c) == IndexOf(t.columns, c) by {
        forall c | c in t.columns { IndexOfAppend(t.columns, [name], c); }
      }
      IndexOfAppend(t.columns, [name], name);
      r
  }

  /** Joining two label lists without repeats and without common labels
      gives no repeats. */
  lemma DistinctAppend(a: seq<string>, b: seq<string>)
    ensures Distinct(a) && Distinct(b) && (forall c :: c in b ==> c !in a) ==> Distinct(a + b)
  {
    if Distinct(a) && Distinct(b) && (forall c :: c in b ==> c !in a) {
      forall i, j | 0 <= i < j < |a + b|
        ensures (a + b)[i] != (a + b)[j]
      {
        if j < |a| {
          assert (a + b)[i] == a[i] && (a + b)[j] == a[j];
        } else if i < |a| {
          assert (a + b)[j] == b[j - |a|] && (a + b)[i] == a[i];
          assert b[j - |a|] in b;
        } else {
          assert (a + b)[i] == b[i - |a|] && (a + b)[j] == b[j - |a|];
        }
      }
    }
  }

  /** `pd.concat([t, d], axis=1)` of two frames with the same rows. */
  function Concat(t: Table, d: Table): (r: Table)
    requires Rectangular(t) && Rectangular(d) && |d.rows| == |t.rows|
    ensures Rectangular(r) && r.columns == t.columns + d.columns && |r.rows| == |t.rows|
    ensures forall i, c :: 0 <= i < |r.rows| && c in t.columns ==>
              At(r.columns, r.rows[i], c) == At(t.columns, t.rows[i], c)
    ensures forall i, c :: 0 <= i < |r.rows| && c in d.columns && c !in t.columns ==>
              At(r.columns, r.rows[i], c) == At(d.columns, d.rows[i], c)
    ensures Distinct(t.columns) && Distinct(d.columns) && (forall c :: c in d.columns ==> c !in t.columns) ==>
              Distinct(r.columns)
  {
    var r := Table(t.columns + d.columns, seq(|t.rows|, i requires 0 <= i < |t.rows| => t.rows[i] + d.rows[i]));
    assert forall c :: c in t.columns + d.columns ==>
      (c in t.columns ==> IndexOf(r.columns, c) == IndexOf(t.columns, c)) &&
      (c !in t.columns ==> IndexOf(r.columns, c) == |t.columns| + IndexOf(d.columns, c)) by {
      forall c | c in t.columns + d.columns { IndexOfAppend(t.columns, d.columns, c); }
    }
    DistinctAppend(t.columns, d.columns);
    r
  }

  // ---------------------------------------------------------------------
  // dropna

  /** The row test of `dropna(thresh=threshold)`: at least `threshold` present cells. */
  function AtLeast(threshold: int): Row -> bool {
    row => threshold <= NonMissing(row)
  }

  /** The row test of `dropna()` (how='any'): no missing cell. */
  function Complete(): Row -> bool {
    row => MissingCells(row) == 0
  }

  /** The column mask of `dropna(axis=1, thresh=threshold)`. */
  function DenseColumns(t: Table, threshold: int): (mask: seq<bool>)
    requires Rectangular(t)
    ensures |mask| == |t.columns|
    ensures forall j :: 0 <= j < |t.columns| ==> (mask[j] <==> threshold <= ColumnNonMissing(t.rows, j))
  {
    seq(|t.columns|, j requires 0 <= j < |t.columns| => threshold <= ColumnNonMissing(t.rows, j))
  }

  /** `dropna(axis=1, thresh=threshold)`: keeps exactly the columns with at
      least `threshold` present cells, in order, with their cells. */
  function DropNaColumns(t: Table, threshold: int): (r: Table)
    requires Rectangular(t)
    ensures Rectangular(r) && |r.rows| == |t.rows|
    ensures Subsequence(r.columns, t.columns)
    ensures |r.columns| == |Kept(DenseColumns(t, threshold))|
    ensures forall k :: 0 <= k < |r.columns| ==>
              var j := Kept(DenseColumns(t, threshold))[k];
              j < |t.columns| && r.columns[k] == t.columns[j] &&
              threshold <= ColumnNonMissing(t.rows, j) &&
              forall i :: 0 <= i < |r.rows| ==> r.rows[i][k] == t.rows[i][j]
    ensures forall j :: 0 <= j < |t.columns| && threshold <= ColumnNonMissing(t.rows, j) ==>
              j in Kept(DenseColumns(t, threshold))
  {
    var r := KeepColumns(t, DenseColumns(t, threshold));
    ProjectIsSubsequence(t.columns, Kept(DenseColumns(t, threshold)));
    r
  }

  /** `dropna(axis=0, thresh=threshold)`: keeps exactly the rows with at least
      `threshold` present cells, in order. */
  function DropNaRows(t: Table, threshold: int): (r: Table)
    requires Rectangular(t)
    ensures Rectangular(r) && r.columns == t.columns
    ensures forall row :: row in r.rows <==> row in t.rows && threshold <= NonMissing(row)
    ensures forall row :: multiset(r.rows)[row] == if threshold <= NonMissing(row) then multiset(t.rows)[row] else 0
    ensures Subsequence(r.rows, t.rows)
  {
    var r := Table(t.columns, Filter(t.rows, AtLeast(threshold)));
    assert forall i :: 0 <= i < |r.rows| ==> r.rows[i] in t.rows;
    FilterCount(t.rows, AtLeast(threshold));
    r
  }

  /** `dropna()`: keeps exactly the rows without a missing cell, in order. */
  function DropNaAny(t: Table): (r: Table)
    requires Rectangular(t)
    ensures Rectangular(r) && r.columns == t.columns
    ensures forall row: Row :: row in r.rows <==> row in t.rows && forall j :: 0 <= j < |row| ==> row[j].Some?
    ensures forall row: Row :: multiset(r.rows)[row] == if MissingCells(row) == 0 then multiset(t.rows)[row] else 0
    ensures Subsequence(r.rows, t.rows)
  {
    var r := Table(t.columns, Filter(t.rows, Complete()));
    assert forall i :: 0 <= i < |r.rows| ==> r.rows[i] in t.rows;
    FilterCount(t.rows, Complete());
    r
  }

  /** The `n`-th row `dropna()` keeps is the `n`-th complete row. */
  lemma DropNaAnyPositions(t: Table)
    requires Rectangular(t)
    ensures var idx := Kept(Mask(t.rows, Complete()));
            |DropNaAny(t).rows| == |idx| &&
            forall n :: 0 <= n < |idx| ==> idx[n] < |t.rows| && DropNaAny(t).rows[n] == t.rows[idx[n]]
  {
    FilterPositions(t.rows, Complete());
  }
}
