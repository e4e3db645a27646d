/**
 * `transform_data` as a function of the input table: the column clean-up, the
 * per-column rules and the two validation filters, in the order the transform
 * stage applies them, and, beside it, a row-by-row reference definition of
 * what the stage produces.
 */
module Transform {
  import opened Wrappers
  import opened Text
  import opened Tables
  import opened ColumnNames
  import opened Salary
  import opened Dates

  /** Why the transform stage raises: a KeyError, a failed `astype(int)`, an age that is not comparable with a number. */
  datatype TransformError =
    | MissingColumn(name: string)
    | LeaveCastFailed(column: string)
    | AgeNotComparable

  const TextColumns: seq<string> :=
    ["full_name", "gender", "nationality", "ethnicity", "job_title", "department",
     "job_level", "status", "emp_type", "salary_band", "location"]

  const LeaveColumns: seq<string> := ["days_absent", "sick_days", "annual_leave"]

  const MinAge := 18
  const MaxAge := 100

  predicate IsTrimmed(s: string) {
    s == [] || (!IsSpace(s[0]) && !IsSpace(s[|s| - 1]))
  }

  // ---------------------------------------------------------------- cell rules

  /** `.str.strip()` on one cell: text loses its surrounding white space, any other cell becomes missing. */
  function TrimCell(v: Value): (r: Value)
    ensures r.Str? <==> v.Str?
    ensures r.Str? ==> IsTrimmed(r.s) && r.s == Strip(v.s)
    ensures !r.Str? ==> r.Missing?
  {
    if v.Str? then Str(Strip(v.s)) else Missing
  }

  lemma TrimCellIdempotent(v: Value)
    ensures TrimCell(TrimCell(v)) == TrimCell(v)
  {
    if v.Str? {
      StripIdempotent(v.s);
    }
  }

  /** `astype(int)` of a float: the integer part, rounding toward zero. */
  function Truncate(x: real): (r: int)
    ensures 0.0 <= x ==> 0 <= r && r as real <= x < r as real + 1.0
    ensures x < 0.0 ==> r <= 0 && r as real - 1.0 < x <= r as real
  {
    if x >= 0.0 then x.Floor else -((-x).Floor)
  }

  /** The cells `fillna(0).astype(int)` can convert: missing, integers and floats. */
  predicate IsCastable(v: Value) {
    v.Missing? || v.Int? || v.Num?
  }

  /** `fillna(0).astype(int)` on one castable cell; any other cell is left as it is (the stage raises before using it). */
  function FillCast(v: Value): (r: Value)
    ensures IsCastable(v) ==> r.Int?
    ensures v.Missing? ==> r == Int(0)
    ensures v.Int? ==> r == v
    ensures v.Num? ==> r == Int(Truncate(v.r))
    ensures !IsCastable(v) ==> r == v
  {
    match v
    case Missing => Int(0)
    case Num(x) => Int(Truncate(x))
    case _ => v
  }

  /**
   * `18 <= age <= 100` on one cell: None when the comparison raises (text or
   * a timestamp), false for a missing cell.
   */
  function AgeInRange(v: Value): (r: Option<bool>)
    ensures r.None? <==> v.Str? || v.Date?
    ensures r == Some(true) <==>
              (v.Int? && MinAge <= v.i <= MaxAge) ||
              (v.Num? && MinAge as real <= v.r <= MaxAge as real)
  {
    match v
    case Missing => Some(false)
    case Int(i) => Some(MinAge <= i <= MaxAge)
    case Num(x) => Some(MinAge as real <= x <= MaxAge as real)
    case _ => None
  }

  /** `salary > 0` on one cell: only a number above zero passes, missing never does. */
  predicate SalaryPositive(v: Value) {
    v.Num? && v.r > 0.0
  }

  // ---------------------------------------------------------------- table steps

  /** `df[name] = df[name].apply(f)`; selecting a column that does not exist raises KeyError. */
  function ApplyColumn(t: Table, name: string, f: Value -> Value): (r: Result<Table, TransformError>)
    requires WellFormed(t)
    ensures r.Err? <==> name !in t.columns
    ensures r.Err? ==> r.error == MissingColumn(name)
    ensures r.Ok? ==> r.value.columns == t.columns && WellFormed(r.value) && |r.value.rows| == |t.rows|
    ensures r.Ok? ==> forall i, k :: 0 <= i < |t.rows| && 0 <= k < |t.columns| ==>
              r.value.rows[i][k] ==
                if IsFirstOfName(t.columns, k) && t.columns[k] == name then f(t.rows[i][k]) else t.rows[i][k]
  {
    match ColumnIndex(t.columns, name)
    case None => Err(MissingColumn(name))
    case Some(k) => Ok(Table(t.columns, MapColumn(t.rows, k, f)))
  }

  /** Step 1: `clean_column_names`. */
  function Renamed(t: Table): (r: Table)
    requires WellFormed(t)
    ensures WellFormed(r) && r.rows == t.rows && |r.columns| == |t.columns|
    ensures r.columns == CleanNames(t.columns)
  {
    Table(CleanNames(t.columns), t.rows)
  }

  /** Steps 2 and 3: the two date columns and the salary column, each of which must exist. */
  function ConvertColumns(t: Table): (r: Result<Table, TransformError>)
    requires WellFormed(t)
    ensures r.Ok? <==> "dob" in t.columns && "hire_date" in t.columns && "salary" in t.columns
    ensures "dob" !in t.columns ==> r == Err(MissingColumn("dob"))
    ensures "dob" in t.columns && "hire_date" !in t.columns ==> r == Err(MissingColumn("hire_date"))
    ensures "dob" in t.columns && "hire_date" in t.columns && "salary" !in t.columns ==> r == Err(MissingColumn("salary"))
    ensures r.Ok? ==> r.value.columns == t.columns && WellFormed(r.value) && |r.value.rows| == |t.rows|
  {
    var withDob :- ApplyColumn(t, "dob", ParseDate);
    var withHire :- ApplyColumn(withDob, "hire_date", ParseDate);
    ApplyColumn(withHire, "salary", CleanSalaryCell)
  }

  /** One pass of the text loop: strip the column when it is there, skip it otherwise. */
  function TrimColumn(t: Table, name: string): (r: Table)
    requires WellFormed(t)
    ensures r.columns == t.columns && WellFormed(r) && |r.rows| == |t.rows|
    ensures name !in t.columns ==> r == t
    ensures name in t.columns ==> ApplyColumn(t, name, TrimCell) == Ok(r)
  {
    match ApplyColumn(t, name, TrimCell)
    case Ok(u) => u
    case Err(_) => t
  }

  /** Step 4: the text loop over `names`, in order. */
  function TrimColumns(t: Table, names: seq<string>): (r: Table)
    requires WellFormed(t)
    ensures r.columns == t.columns && WellFormed(r) && |r.rows| == |t.rows|
    decreases names
  {
    if names == [] then t else TrimColumns(TrimColumn(t, names[0]), names[1..])
  }

  /** Every cell of a column named in `names` (where the stage finds it) can be converted. */
  predicate CastableColumns(t: Table, names: seq<string>)
    requires WellFormed(t)
  {
    forall i, k :: 0 <= i < |t.rows| && 0 <= k < |t.columns| && IsFirstOfName(t.columns, k) && t.columns[k] in names ==>
      IsCastable(t.rows[i][k])
  }

  /** Some cell of the column the stage finds under `name` cannot be converted. */
  predicate UncastableColumn(t: Table, name: string)
    requires WellFormed(t)
  {
    exists i, k :: 0 <= i < |t.rows| && 0 <= k < |t.columns| && IsFirstOfName(t.columns, k) && t.columns[k] == name &&
      !IsCastable(t.rows[i][k])
  }

  /** `name` is the first listed column that is there and holds a cell that cannot be converted. */
  predicate FirstUncastable(t: Table, names: seq<string>, name: string)
    requires WellFormed(t)
  {
    UncastableColumn(t, name) &&
    exists j :: 0 <= j < |names| && names[j] == name && CastableColumns(t, names[..j])
  }

  /** One pass of the leave loop: convert the column when it is there, skip it otherwise. */
  function FillColumn(t: Table, name: string): (r: Result<Table, TransformError>)
    requires WellFormed(t)
    ensures r.Ok? ==> r.value.columns == t.columns && WellFormed(r.value) && |r.value.rows| == |t.rows|
    ensures r.Err? ==> r.error == LeaveCastFailed(name)
  {
    match ColumnIndex(t.columns, name)
    case None => Ok(t)
    case Some(k) =>
      if forall i :: 0 <= i < |t.rows| ==> IsCastable(t.rows[i][k]) then ApplyColumn(t, name, FillCast)
      else Err(LeaveCastFailed(name))
  }

  /** Step 5: the leave loop over `names`, in order, stopping at the first column that cannot be converted. */
  function FillColumns(t: Table, names: seq<string>): (r: Result<Table, TransformError>)
    requires WellFormed(t)
    ensures r.Ok? ==> r.value.columns == t.columns && WellFormed(r.value) && |r.value.rows| == |t.rows|
    ensures r.Err? ==> r.error.LeaveCastFailed? && r.error.column in names
    decreases names
  {
    if names == [] then Ok(t)
    else
      var u :- FillColumn(t, names[0]);
      FillColumns(u, names[1..])
  }

  /** The two row tests of step 6, by column position, and the two together. */
  datatype RowTest = AgeTest(age: nat) | SalaryTest(salary: nat) | BothTests(age: nat, salary: nat)

  predicate Passes(row: Row, test: RowTest) {
    match test
    case AgeTest(a) => a < |row| && AgeInRange(row[a]) == Some(true)
    case SalaryTest(s) => s < |row| && SalaryPositive(row[s])
    case BothTests(a, s) => a < |row| && AgeInRange(row[a]) == Some(true) && s < |row| && SalaryPositive(row[s])
  }

  /** `(df['age'] >= 18) & (df['age'] <= 100)`. */
  function AgeMask(t: Table): (r: Result<seq<bool>, TransformError>)
    requires WellFormed(t)
    ensures r.Err? <==>
              "age" !in t.columns ||
              exists i :: 0 <= i < |t.rows| && AgeInRange(t.rows[i][ColumnIndex(t.columns, "age").value]).None?
    ensures r.Err? && "age" !in t.columns ==> r.error == MissingColumn("age")
    ensures r.Err? && "age" in t.columns ==> r.error == AgeNotComparable
    ensures r.Ok? ==> |r.value| == |t.rows|
    ensures r.Ok? ==> forall i :: 0 <= i < |t.rows| ==>
              r.value[i] == Passes(t.rows[i], AgeTest(ColumnIndex(t.columns, "age").value))
  {
    match ColumnIndex(t.columns, "age")
    case None => Err(MissingColumn("age"))
    case Some(a) =>
      if forall i :: 0 <= i < |t.rows| ==> AgeInRange(t.rows[i][a]).Some? then
        Ok(seq(|t.rows|, i requires 0 <= i < |t.rows| => Passes(t.rows[i], AgeTest(a))))
      else Err(AgeNotComparable)
  }

  /** `df['salary'] > 0`. */
  function SalaryMask(t: Table): (r: Result<seq<bool>, TransformError>)
    requires WellFormed(t)
    ensures r.Err? <==> "salary" !in t.columns
    ensures r.Err? ==> r.error == MissingColumn("salary")
    ensures r.Ok? ==> |r.value| == |t.rows|
    ensures r.Ok? ==> forall i :: 0 <= i < |t.rows| ==>
              r.value[i] == Passes(t.rows[i], SalaryTest(ColumnIndex(t.columns, "salary").value))
  {
    match ColumnIndex(t.columns, "salary")
    case None => Err(MissingColumn("salary"))
    case Some(s) => Ok(seq(|t.rows|, i requires 0 <= i < |t.rows| => Passes(t.rows[i], SalaryTest(s))))
  }

  /** `df[mask]`. */
  function KeepRows(t: Table, mask: seq<bool>): (r: Table)
    requires WellFormed(t) && |mask| == |t.rows|
    ensures r.columns == t.columns && WellFormed(r) && |r.rows| <= |t.rows|
  {
    var kept := Select(t.rows, mask);
    assert forall i :: 0 <= i < |kept| ==> kept[i] in t.rows;
    Table(t.columns, kept)
  }

  /** Step 6: the age filter, then the salary filter. */
  function Validate(t: Table): (r: Result<Table, TransformError>)
    requires WellFormed(t)
    ensures r.Ok? ==> r.value.columns == t.columns && WellFormed(r.value) && |r.value.rows| <= |t.rows|
  {
    var ageMask :- AgeMask(t);
    var adults := KeepRows(t, ageMask);
    var salaryMask :- SalaryMask(adults);
    Ok(KeepRows(adults, salaryMask))
  }

  /** Steps 2 to 5: every per-column rule, before any row is dropped. */
  function CellStages(t: Table): (r: Result<Table, TransformError>)
    requires WellFormed(t)
    ensures r.Ok? ==> r.value.columns == t.columns && WellFormed(r.value) && |r.value.rows| == |t.rows|
  {
    var converted :- ConvertColumns(t);
    FillColumns(TrimColumns(converted, TextColumns), LeaveColumns)
  }

  /** Steps 2 to 6, on the table whose names step 1 has cleaned. */
  function AfterRename(u: Table): (r: Result<Table, TransformError>)
    requires WellFormed(u)
    ensures r.Ok? ==> r.value.columns == u.columns && WellFormed(r.value) && |r.value.rows| <= |u.rows|
  {
    var filled :- CellStages(u);
    Validate(filled)
  }

  /** `transform_data`, step by step. */
  function TransformSteps(t: Table): (r: Result<Table, TransformError>)
    requires WellFormed(t)
    ensures r.Ok? ==> r.value.columns == CleanNames(t.columns) && WellFormed(r.value) && |r.value.rows| <= |t.rows|
  {
    AfterRename(Renamed(t))
  }
}
