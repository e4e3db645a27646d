/**
 * The in-memory record batch: an ordered list of named columns and an ordered
 * list of rows, each row holding one cell per column, in column order.
 */
module Tables {
  import opened Wrappers

  datatype CalendarDate = CalendarDate(year: int, month: int, day: int)

  /** A cell: pandas' NaN/None/NaT, a string, an integer, a float or a timestamp. */
  datatype Value =
    | Missing
    | Str(s: string)
    | Int(i: int)
    | Num(r: real)
    | Date(date: CalendarDate)

  type Row = seq<Value>

  datatype Table = Table(columns: seq<string>, rows: seq<Row>)

  /** Every row has exactly one cell per column. */
  predicate WellFormed(t: Table) {
    forall i :: 0 <= i < |t.rows| ==> |t.rows[i]| == |t.columns|
  }

  /** Position of a column named `name` (the first such column), as `df[name]` finds it. */
  function ColumnIndex(columns: seq<string>, name: string): (r: Option<nat>)
    ensures r.None? <==> name !in columns
    ensures r.Some? ==> r.value < |columns| && columns[r.value] == name
    ensures r.Some? ==> forall j :: 0 <= j < r.value ==> columns[j] != name
  {
    if columns == [] then None
    else if columns[0] == name then Some(0)
    else match ColumnIndex(columns[1..], name)
      case None => None
      case Some(k) => Some(k + 1)
  }

  /** Whether column position k is where `df[name]` looks for its own name. */
  predicate IsFirstOfName(columns: seq<string>, k: nat)
    requires k < |columns|
  {
    ColumnIndex(columns, columns[k]) == Some(k)
  }

  /** Replaces column k of every row by f of its old cell (`df[c] = df[c].apply(f)`). */
  function MapColumn(rows: seq<Row>, k: nat, f: Value -> Value): (r: seq<Row>)
    requires forall i :: 0 <= i < |rows| ==> k < |rows[i]|
    ensures |r| == |rows|
    ensures forall i :: 0 <= i < |rows| ==> |r[i]| == |rows[i]|
    ensures forall i, j :: 0 <= i < |rows| && 0 <= j < |rows[i]| ==>
              r[i][j] == if j == k then f(rows[i][k]) else rows[i][j]
  {
    seq(|rows|, i requires 0 <= i < |rows| => rows[i][k := f(rows[i][k])])
  }

  /** The rows whose mask entry is true, in order (`df[mask]`). */
  function Select<T>(s: seq<T>, mask: seq<bool>): (r: seq<T>)
    requires |mask| == |s|
    ensures |r| <= |s|
    ensures forall x :: x in r ==> x in s
  {
    if s == [] then []
    else (if mask[0] then [s[0]] else []) + Select(s[1..], mask[1..])
  }

  /** xs is obtained from ys by deleting elements, keeping their order. */
  predicate IsSubsequence<T(==)>(xs: seq<T>, ys: seq<T>)
    decreases |ys|
  {
    xs == [] ||
    (ys != [] &&
     ((xs[0] == ys[0] && IsSubsequence(xs[1..], ys[1..])) || IsSubsequence(xs, ys[1..])))
  }
}
