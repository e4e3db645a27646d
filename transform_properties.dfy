/**
 * What `transform_data` produces, stated row by row and proved against the
 * step-by-step definition in module Transform.
 */
module TransformProperties {
  import opened Wrappers
  import opened Text
  import opened Tables
  import opened ColumnNames
  import opened Salary
  import opened Dates
  import opened Transform

  // ------------------------------------------------------------ the loops

  /** After the text loop, the column where each listed name is found is stripped and every other cell is as it was. */
  lemma {:induction false} TrimColumnsCell(t: Table, names: seq<string>, i: nat, k: nat)
    requires WellFormed(t) && i < |t.rows| && k < |t.columns|
    ensures TrimColumns(t, names).rows[i][k] ==
              if IsFirstOfName(t.columns, k) && t.columns[k] in names then TrimCell(t.rows[i][k]) else t.rows[i][k]
    decreases names
  {
    if names != [] {
      var n := names[0];
      var u := TrimColumn(t, n);
      TrimColumnsCell(u, names[1..], i, k);
      var x := t.rows[i][k];
      assert u.rows[i][k] == if IsFirstOfName(t.columns, k) && t.columns[k] == n then TrimCell(x) else x;
      assert t.columns[k] in names <==> t.columns[k] == n || t.columns[k] in names[1..];
      TrimCellIdempotent(x);
    }
  }

  /** A listed column that is there and fully castable is converted; the pass over it then leaves it castable. */
  lemma FirstOfNameUnique(columns: seq<string>, name: string, k0: nat, k: nat)
    requires ColumnIndex(columns, name) == Some(k0) && k < |columns|
    requires IsFirstOfName(columns, k) && columns[k] == name
    ensures k == k0
  {
  }

  /** One pass of the leave loop over a column that is there and castable keeps the rest of the condition as it was. */
  lemma FillPassCastable(t: Table, names: seq<string>, k0: nat)
    requires WellFormed(t) && names != [] && ColumnIndex(t.columns, names[0]) == Some(k0)
    requires forall i :: 0 <= i < |t.rows| ==> IsCastable(t.rows[i][k0])
    ensures ApplyColumn(t, names[0], FillCast).Ok?
    ensures CastableColumns(ApplyColumn(t, names[0], FillCast).value, names[1..]) <==> CastableColumns(t, names)
  {
    var n, rest := names[0], names[1..];
    var u := ApplyColumn(t, n, FillCast).value;
    assert forall m :: m in names <==> m == n || m in rest;
    forall k | 0 <= k < |t.columns| && IsFirstOfName(t.columns, k) && t.columns[k] == n
      ensures k == k0
    {
      FirstOfNameUnique(t.columns, n, k0, k);
    }
    if CastableColumns(t, names) {
      forall i, k | 0 <= i < |u.rows| && 0 <= k < |u.columns| && IsFirstOfName(u.columns, k) && u.columns[k] in rest
        ensures IsCastable(u.rows[i][k])
      {
        if k != k0 {
          assert u.rows[i][k] == t.rows[i][k];
        }
      }
    }
    if CastableColumns(u, rest) {
      forall i, k | 0 <= i < |t.rows| && 0 <= k < |t.columns| && IsFirstOfName(t.columns, k) && t.columns[k] in names
        ensures IsCastable(t.rows[i][k])
      {
        if k != k0 {
          assert u.rows[i][k] == t.rows[i][k];
        }
      }
    }
  }

  /** The leave loop succeeds exactly when every cell of every listed column that is there can be converted. */
  lemma {:induction false} FillColumnsSucceeds(t: Table, names: seq<string>)
    requires WellFormed(t)
    ensures FillColumns(t, names).Ok? <==> CastableColumns(t, names)
    decreases names
  {
    if names != [] {
      var n, rest := names[0], names[1..];
      assert forall m :: m in names <==> m == n || m in rest;
      match ColumnIndex(t.columns, n)
      case None =>
        FillColumnsSucceeds(t, rest);
      case Some(k0) =>
        if forall i :: 0 <= i < |t.rows| ==> IsCastable(t.rows[i][k0]) {
          var u := ApplyColumn(t, n, FillCast).value;
          assert FillColumn(t, n) == Ok(u);
          FillColumnsSucceeds(u, rest);
          FillPassCastable(t, names, k0);
        } else {
          var i :| 0 <= i < |t.rows| && !IsCastable(t.rows[i][k0]);
          assert IsFirstOfName(t.columns, k0);
        }
    }
  }

  /** When the leave loop succeeds, it has converted exactly the cells of the listed columns that are there. */
  lemma {:induction false} FillColumnsCell(t: Table, names: seq<string>, i: nat, k: nat)
    requires WellFormed(t) && FillColumns(t, names).Ok? && i < |t.rows| && k < |t.columns|
    ensures FillColumns(t, names).value.rows[i][k] ==
              if IsFirstOfName(t.columns, k) && t.columns[k] in names then FillCast(t.rows[i][k]) else t.rows[i][k]
    decreases names
  {
    if names != [] {
      var n, rest := names[0], names[1..];
      var u := FillColumn(t, n).value;
      FillColumnsCell(u, rest, i, k);
      var x := t.rows[i][k];
      assert u.rows[i][k] == if IsFirstOfName(t.columns, k) && t.columns[k] == n then FillCast(x) else x;
      assert t.columns[k] in names <==> t.columns[k] == n || t.columns[k] in rest;
      if IsFirstOfName(t.columns, k) && t.columns[k] == n {
        assert ColumnIndex(t.columns, n) == Some(k);
        assert IsCastable(x);
      }
    }
  }

  /** A failure found after skipping an absent first column is a failure of the whole list. */
  lemma FailurePastAbsent(t: Table, names: seq<string>, c: string)
    requires WellFormed(t) && names != [] && names[0] !in t.columns && FirstUncastable(t, names[1..], c)
    ensures FirstUncastable(t, names, c)
  {
    var n, rest := names[0], names[1..];
    var j :| 0 <= j < |rest| && rest[j] == c && CastableColumns(t, rest[..j]);
    assert names[..j + 1] == [n] + rest[..j];
    assert forall m :: m in names[..j + 1] <==> m == n || m in rest[..j];
    assert names[j + 1] == c && CastableColumns(t, names[..j + 1]);
  }

  /** Converting a castable column leaves every cell that cannot be converted where it was. */
  lemma UncastablePastCast(t: Table, n: string, k0: nat, c: string)
    requires WellFormed(t) && ColumnIndex(t.columns, n) == Some(k0)
    requires forall i :: 0 <= i < |t.rows| ==> IsCastable(t.rows[i][k0])
    requires ApplyColumn(t, n, FillCast).Ok? && UncastableColumn(ApplyColumn(t, n, FillCast).value, c)
    ensures UncastableColumn(t, c)
  {
    var u := ApplyColumn(t, n, FillCast).value;
    var i, k :| 0 <= i < |u.rows| && 0 <= k < |u.columns| && IsFirstOfName(u.columns, k) && u.columns[k] == c &&
      !IsCastable(u.rows[i][k]);
    assert k != k0;
    assert u.rows[i][k] == t.rows[i][k];
  }

  /** A failure found after converting a castable first column is a failure of the whole list, in the unconverted table. */
  lemma FailurePastCast(t: Table, names: seq<string>, k0: nat, c: string)
    requires WellFormed(t) && names != [] && ColumnIndex(t.columns, names[0]) == Some(k0)
    requires forall i :: 0 <= i < |t.rows| ==> IsCastable(t.rows[i][k0])
    requires ApplyColumn(t, names[0], FillCast).Ok? && FirstUncastable(ApplyColumn(t, names[0], FillCast).value, names[1..], c)
    ensures FirstUncastable(t, names, c)
  {
    var n, rest := names[0], names[1..];
    var u := ApplyColumn(t, n, FillCast).value;
    UncastablePastCast(t, n, k0, c);
    var j :| 0 <= j < |rest| && rest[j] == c && CastableColumns(u, rest[..j]);
    var front := [n] + rest[..j];
    assert front[1..] == rest[..j];
    FillPassCastable(t, front, k0);
    assert names[..j + 1] == front;
    assert names[j + 1] == c && CastableColumns(t, names[..j + 1]);
  }

  /** When the leave loop fails, it names the first listed column that is there and holds a cell it cannot convert. */
  lemma {:induction false} FillColumnsFailure(t: Table, names: seq<string>)
    requires WellFormed(t) && FillColumns(t, names).Err?
    ensures FirstUncastable(t, names, FillColumns(t, names).error.column)
    decreases names
  {
    var n, rest := names[0], names[1..];
    var c := FillColumns(t, names).error.column;
    match ColumnIndex(t.columns, n)
    case None =>
      FillColumnsFailure(t, rest);
      FailurePastAbsent(t, names, c);
    case Some(k0) =>
      if forall i :: 0 <= i < |t.rows| ==> IsCastable(t.rows[i][k0]) {
        var u := ApplyColumn(t, n, FillCast).value;
        assert FillColumn(t, n) == Ok(u);
        FillColumnsFailure(u, rest);
        FailurePastCast(t, names, k0, c);
      } else {
        var i :| 0 <= i < |t.rows| && !IsCastable(t.rows[i][k0]);
        assert IsFirstOfName(t.columns, k0);
        assert UncastableColumn(t, c);
        assert names[0] == c && CastableColumns(t, names[..0]);
      }
  }

  // ------------------------------------------------------------ the conversions

  /** The conversion steps 2 and 3 make of a cell of the column named `name`. */
  function ConvertRule(name: string, v: Value): Value {
    if name == "dob" || name == "hire_date" then ParseDate(v)
    else if name == "salary" then CleanSalaryCell(v)
    else v
  }

  /** The three conversions change only the three columns they name. */
  lemma ConvertColumnsCell(t: Table, i: nat, k: nat)
    requires WellFormed(t) && ConvertColumns(t).Ok? && i < |t.rows| && k < |t.columns|
    ensures ConvertColumns(t).value.rows[i][k] ==
              if IsFirstOfName(t.columns, k) then ConvertRule(t.columns[k], t.rows[i][k]) else t.rows[i][k]
  {
    var a := ApplyColumn(t, "dob", ParseDate).value;
    var b := ApplyColumn(a, "hire_date", ParseDate).value;
    var c := ApplyColumn(b, "salary", CleanSalaryCell).value;
    assert ConvertColumns(t) == Ok(c);
    var x := t.rows[i][k];
    var first := IsFirstOfName(t.columns, k);
    assert a.rows[i][k] == if first && t.columns[k] == "dob" then ParseDate(x) else x;
    assert b.rows[i][k] == if first && t.columns[k] == "hire_date" then ParseDate(a.rows[i][k]) else a.rows[i][k];
    assert c.rows[i][k] == if first && t.columns[k] == "salary" then CleanSalaryCell(b.rows[i][k]) else b.rows[i][k];
  }

  // ------------------------------------------------------------ the reference definition

  /** The rule the stage applies to the cells of the column named `name`. */
  function CellRule(name: string, v: Value): Value {
    if name == "dob" || name == "hire_date" then ParseDate(v)
    else if name == "salary" then CleanSalaryCell(v)
    else if name in TextColumns then TrimCell(v)
    else if name in LeaveColumns then FillCast(v)
    else v
  }

  /** A row with each rule applied to the column where the stage finds that column's name. */
  function CleanRow(columns: seq<string>, row: Row): (r: Row)
    requires |row| == |columns|
    ensures |r| == |row|
  {
    seq(|row|, k requires 0 <= k < |row| => if IsFirstOfName(columns, k) then CellRule(columns[k], row[k]) else row[k])
  }

  function CleanRows(columns: seq<string>, rows: seq<Row>): (r: seq<Row>)
    requires forall i :: 0 <= i < |rows| ==> |rows[i]| == |columns|
    ensures |r| == |rows|
    ensures forall i :: 0 <= i < |r| ==> |r[i]| == |columns|
  {
    seq(|rows|, i requires 0 <= i < |rows| => CleanRow(columns, rows[i]))
  }

  /** The rows that pass `test`, in order. */
  function FilterRows(rows: seq<Row>, test: RowTest): seq<Row> {
    if rows == [] then []
    else (if Passes(rows[0], test) then [rows[0]] else []) + FilterRows(rows[1..], test)
  }

  /** The condition under which steps 2 to 6 do not raise, on the table whose names are cleaned. */
  predicate Succeeds(u: Table)
    requires WellFormed(u)
  {
    var age := ColumnIndex(u.columns, "age");
    "dob" in u.columns && "hire_date" in u.columns && "salary" in u.columns && age.Some? &&
    CastableColumns(u, LeaveColumns) &&
    forall i :: 0 <= i < |u.rows| ==> AgeInRange(u.rows[i][age.value]).Some?
  }

  /** The table steps 2 to 6 return when they succeed: the cleaned rows that pass both tests, in order. */
  function Expected(u: Table): Table
    requires WellFormed(u) && "age" in u.columns && "salary" in u.columns
  {
    var test := BothTests(ColumnIndex(u.columns, "age").value, ColumnIndex(u.columns, "salary").value);
    Table(u.columns, FilterRows(CleanRows(u.columns, u.rows), test))
  }

  // ------------------------------------------------------------ the stages against the reference

  /** No column gets two different rules, and the age column gets none. */
  lemma RuleNamesDisjoint()
    ensures forall n :: n in LeaveColumns ==> n !in TextColumns && n != "dob" && n != "hire_date" && n != "salary"
    ensures "dob" !in TextColumns && "hire_date" !in TextColumns && "salary" !in TextColumns
    ensures "age" !in TextColumns && "age" !in LeaveColumns
  {
  }

  lemma AgeHasNoRule(v: Value)
    ensures CellRule("age", v) == v
  {
    RuleNamesDisjoint();
  }

  lemma CellRuleBeforeLeave(name: string, v: Value)
    requires name !in LeaveColumns
    ensures CellRule(name, v) == if name in TextColumns then TrimCell(ConvertRule(name, v)) else ConvertRule(name, v)
  {
    RuleNamesDisjoint();
  }

  /** The rule of a non-leave column is the conversion followed, for a text column, by the strip. */
  lemma RuleThroughConversions(name: string, first: bool, x: Value, converted: Value, trimmed: Value)
    requires converted == if first then ConvertRule(name, x) else x
    requires trimmed == if first && name in TextColumns then TrimCell(converted) else converted
    ensures trimmed == if first && name !in LeaveColumns then CellRule(name, x) else x
  {
    if first && name !in LeaveColumns {
      CellRuleBeforeLeave(name, x);
    } else if first {
      RuleNamesDisjoint();
    }
  }

  /** Steps 2 to 4 apply CellRule to every column found by name, except the leave columns, which they leave as they were. */
  lemma TrimmedCell(u: Table, i: nat, k: nat)
    requires WellFormed(u) && ConvertColumns(u).Ok? && i < |u.rows| && k < |u.columns|
    ensures TrimColumns(ConvertColumns(u).value, TextColumns).rows[i][k] ==
              if IsFirstOfName(u.columns, k) && u.columns[k] !in LeaveColumns then CellRule(u.columns[k], u.rows[i][k])
              else u.rows[i][k]
  {
    var converted := ConvertColumns(u).value;
    ConvertColumnsCell(u, i, k);
    TrimColumnsCell(converted, TextColumns, i, k);
    RuleThroughConversions(u.columns[k], IsFirstOfName(u.columns, k), u.rows[i][k],
                           converted.rows[i][k], TrimColumns(converted, TextColumns).rows[i][k]);
  }

  lemma CellRuleOfLeave(name: string, v: Value)
    requires name in LeaveColumns
    ensures CellRule(name, v) == FillCast(v)
  {
    RuleNamesDisjoint();
  }

  /** The rule of every column is what steps 2 to 5 make of it. */
  lemma RuleThroughStages(name: string, first: bool, x: Value, trimmed: Value, filled: Value)
    requires trimmed == if first && name !in LeaveColumns then CellRule(name, x) else x
    requires filled == if first && name in LeaveColumns then FillCast(trimmed) else trimmed
    ensures filled == if first then CellRule(name, x) else x
  {
    if first && name in LeaveColumns {
      CellRuleOfLeave(name, x);
    }
  }

  /** Stripping leaves every leave cell castable that was castable before the conversions. */
  lemma TrimKeepsCastable(u: Table)
    requires WellFormed(u) && ConvertColumns(u).Ok? && CastableColumns(u, LeaveColumns)
    ensures CastableColumns(TrimColumns(ConvertColumns(u).value, TextColumns), LeaveColumns)
  {
    var trimmed := TrimColumns(ConvertColumns(u).value, TextColumns);
    forall i, k | 0 <= i < |u.rows| && 0 <= k < |u.columns| && IsFirstOfName(u.columns, k) && u.columns[k] in LeaveColumns
      ensures IsCastable(trimmed.rows[i][k])
    {
      TrimmedCell(u, i, k);
    }
  }

  /** A leave cell castable after the conversions and stripping was castable before them. */
  lemma TrimReflectsCastable(u: Table)
    requires WellFormed(u) && ConvertColumns(u).Ok?
    requires CastableColumns(TrimColumns(ConvertColumns(u).value, TextColumns), LeaveColumns)
    ensures CastableColumns(u, LeaveColumns)
  {
    var trimmed := TrimColumns(ConvertColumns(u).value, TextColumns);
    forall i, k | 0 <= i < |u.rows| && 0 <= k < |u.columns| && IsFirstOfName(u.columns, k) && u.columns[k] in LeaveColumns
      ensures IsCastable(u.rows[i][k])
    {
      TrimmedCell(u, i, k);
    }
  }

  /** A leave cell that cannot be converted after steps 2 to 4 could not be converted before them. */
  lemma UncastableBeforeTrim(u: Table, c: string)
    requires WellFormed(u) && ConvertColumns(u).Ok? && c in LeaveColumns
    requires UncastableColumn(TrimColumns(ConvertColumns(u).value, TextColumns), c)
    ensures UncastableColumn(u, c)
  {
    var trimmed := TrimColumns(ConvertColumns(u).value, TextColumns);
    var i, k :| 0 <= i < |trimmed.rows| && 0 <= k < |trimmed.columns| && IsFirstOfName(trimmed.columns, k) &&
      trimmed.columns[k] == c && !IsCastable(trimmed.rows[i][k]);
    TrimKeepsLeaveCell(u, i, k);
  }

  /** The conversions and the text loop leave the cells of a leave column alone. */
  lemma TrimKeepsLeaveCell(u: Table, i: nat, k: nat)
    requires WellFormed(u) && ConvertColumns(u).Ok? && i < |u.rows| && k < |u.columns|
    requires u.columns[k] in LeaveColumns
    ensures TrimColumns(ConvertColumns(u).value, TextColumns).rows[i][k] == u.rows[i][k]
  {
    TrimmedCell(u, i, k);
  }

  /** Leave columns castable after steps 2 to 4 were castable before them. */
  lemma CastableBeforeTrim(u: Table, names: seq<string>)
    requires WellFormed(u) && ConvertColumns(u).Ok? && forall m :: m in names ==> m in LeaveColumns
    requires CastableColumns(TrimColumns(ConvertColumns(u).value, TextColumns), names)
    ensures CastableColumns(u, names)
  {
    forall i, k | 0 <= i < |u.rows| && 0 <= k < |u.columns| && IsFirstOfName(u.columns, k) && u.columns[k] in names
      ensures IsCastable(u.rows[i][k])
    {
      TrimmedCell(u, i, k);
    }
  }

  /** The leave column at which steps 2 to 5 fail is the first listed one that holds a cell that cannot be converted. */
  lemma StagesCastFailure(u: Table)
    requires WellFormed(u) && ConvertColumns(u).Ok? && !CastableColumns(u, LeaveColumns)
    ensures CellStages(u).Err? && CellStages(u).error.LeaveCastFailed?
    ensures FirstUncastable(u, LeaveColumns, CellStages(u).error.column)
  {
    StagesSucceed(u);
    var trimmed := TrimColumns(ConvertColumns(u).value, TextColumns);
    assert CellStages(u) == FillColumns(trimmed, LeaveColumns);
    var c := CellStages(u).error.column;
    FillColumnsFailure(trimmed, LeaveColumns);
    UncastableBeforeTrim(u, c);
    var j :| 0 <= j < |LeaveColumns| && LeaveColumns[j] == c && CastableColumns(trimmed, LeaveColumns[..j]);
    CastableBeforeTrim(u, LeaveColumns[..j]);
  }

  /** Steps 2 to 5 succeed exactly when the three converted columns exist and every leave cell can be converted. */
  lemma StagesSucceed(u: Table)
    requires WellFormed(u)
    ensures CellStages(u).Ok? <==>
              "dob" in u.columns && "hire_date" in u.columns && "salary" in u.columns && CastableColumns(u, LeaveColumns)
  {
    if ConvertColumns(u).Ok? {
      var trimmed := TrimColumns(ConvertColumns(u).value, TextColumns);
      if CastableColumns(u, LeaveColumns) {
        TrimKeepsCastable(u);
      }
      if CastableColumns(trimmed, LeaveColumns) {
        TrimReflectsCastable(u);
      }
      FillColumnsSucceeds(trimmed, LeaveColumns);
    }
  }

  lemma CleanRowsCell(columns: seq<string>, rows: seq<Row>, i: nat, k: nat)
    requires forall j :: 0 <= j < |rows| ==> |rows[j]| == |columns|
    requires i < |rows| && k < |columns|
    ensures CleanRows(columns, rows)[i][k] ==
              if IsFirstOfName(columns, k) then CellRule(columns[k], rows[i][k]) else rows[i][k]
  {
  }

  /** A cell through the text and leave loops, after the conversions. */
  lemma LoopsCell(u: Table, trimmed: Table, i: nat, k: nat)
    requires WellFormed(u) && ConvertColumns(u).Ok? && trimmed == TrimColumns(ConvertColumns(u).value, TextColumns)
    requires FillColumns(trimmed, LeaveColumns).Ok? && i < |u.rows| && k < |u.columns|
    ensures FillColumns(trimmed, LeaveColumns).value.rows[i][k] ==
              if IsFirstOfName(u.columns, k) then CellRule(u.columns[k], u.rows[i][k]) else u.rows[i][k]
  {
    var filled := FillColumns(trimmed, LeaveColumns).value;
    TrimmedCell(u, i, k);
    FillColumnsCell(trimmed, LeaveColumns, i, k);
    RuleThroughStages(u.columns[k], IsFirstOfName(u.columns, k), u.rows[i][k], trimmed.rows[i][k], filled.rows[i][k]);
  }

  /** One cell through steps 2 to 5. */
  lemma StagesCell(u: Table, i: nat, k: nat)
    requires WellFormed(u) && CellStages(u).Ok? && i < |u.rows| && k < |u.columns|
    ensures CellStages(u).value.rows[i][k] == CleanRows(u.columns, u.rows)[i][k]
  {
    var converted := ConvertColumns(u);
    assert converted.Ok?;
    var trimmed := TrimColumns(converted.value, TextColumns);
    assert CellStages(u) == FillColumns(trimmed, LeaveColumns);
    LoopsCell(u, trimmed, i, k);
    CleanRowsCell(u.columns, u.rows, i, k);
  }

  /** One row through steps 2 to 5. */
  lemma StagesRow(u: Table, i: nat)
    requires WellFormed(u) && CellStages(u).Ok? && i < |u.rows|
    ensures CellStages(u).value.rows[i] == CleanRows(u.columns, u.rows)[i]
  {
    var filled := CellStages(u).value.rows[i];
    var expected := CleanRows(u.columns, u.rows)[i];
    forall k | 0 <= k < |u.columns| ensures filled[k] == expected[k] {
      StagesCell(u, i, k);
    }
    assert |filled| == |expected|;
  }

  /** Steps 2 to 5 together apply CellRule to every column where the stage finds its name. */
  lemma StagesMatchCleanRows(u: Table)
    requires WellFormed(u) && CellStages(u).Ok?
    ensures CellStages(u).value.rows == CleanRows(u.columns, u.rows)
  {
    var filled := CellStages(u).value.rows;
    var expected := CleanRows(u.columns, u.rows);
    forall i | 0 <= i < |u.rows| ensures filled[i] == expected[i] {
      StagesRow(u, i);
    }
    assert |filled| == |expected|;
  }

  // ------------------------------------------------------------ the filters

  /** `df[mask]` with a mask computed row by row keeps exactly the rows that pass the test. */
  lemma {:induction false} SelectByTest(rows: seq<Row>, mask: seq<bool>, test: RowTest)
    requires |mask| == |rows|
    requires forall i :: 0 <= i < |rows| ==> mask[i] == Passes(rows[i], test)
    ensures Select(rows, mask) == FilterRows(rows, test)
  {
    if rows != [] {
      SelectByTest(rows[1..], mask[1..], test);
    }
  }

  /** Filtering by age and then by salary is filtering by both. */
  lemma {:induction false} FilterTwice(rows: seq<Row>, a: nat, s: nat)
    ensures FilterRows(FilterRows(rows, AgeTest(a)), SalaryTest(s)) == FilterRows(rows, BothTests(a, s))
  {
    if rows != [] {
      FilterTwice(rows[1..], a, s);
      var rest := FilterRows(rows[1..], AgeTest(a));
      if Passes(rows[0], AgeTest(a)) {
        assert FilterRows(rows, AgeTest(a)) == [rows[0]] + rest;
        assert ([rows[0]] + rest)[1..] == rest;
      } else {
        assert FilterRows(rows, AgeTest(a)) == rest;
      }
    }
  }

  /** A filter keeps exactly the rows of its input that pass the test. */
  lemma {:induction false} FilterRowsMembers(rows: seq<Row>, test: RowTest)
    ensures forall r :: r in FilterRows(rows, test) <==> r in rows && Passes(r, test)
  {
    if rows != [] {
      FilterRowsMembers(rows[1..], test);
    }
  }

  /** A filter keeps rows in their order: its output is a subsequence of its input. */
  lemma {:induction false} FilterRowsSubsequence(rows: seq<Row>, test: RowTest)
    ensures IsSubsequence(FilterRows(rows, test), rows)
  {
    if rows != [] {
      FilterRowsSubsequence(rows[1..], test);
      var rest := FilterRows(rows[1..], test);
      if Passes(rows[0], test) {
        assert FilterRows(rows, test) == [rows[0]] + rest;
        assert ([rows[0]] + rest)[1..] == rest;
      } else {
        assert FilterRows(rows, test) == rest;
      }
    }
  }

  /**
   * Step 6 succeeds exactly when both columns exist and every age cell is
   * comparable, and then keeps exactly the rows that pass both tests.
   */
  lemma ValidateMatches(t: Table)
    requires WellFormed(t)
    ensures Validate(t).Ok? <==>
              "age" in t.columns && "salary" in t.columns &&
              forall i :: 0 <= i < |t.rows| ==> AgeInRange(t.rows[i][ColumnIndex(t.columns, "age").value]).Some?
    ensures Validate(t).Ok? ==>
              Validate(t).value.rows ==
                FilterRows(t.rows, BothTests(ColumnIndex(t.columns, "age").value, ColumnIndex(t.columns, "salary").value))
  {
    var ageMask := AgeMask(t);
    if ageMask.Ok? {
      var a := ColumnIndex(t.columns, "age").value;
      var adults := KeepRows(t, ageMask.value);
      SelectByTest(t.rows, ageMask.value, AgeTest(a));
      var salaryMask := SalaryMask(adults);
      if salaryMask.Ok? {
        var s := ColumnIndex(t.columns, "salary").value;
        SelectByTest(adults.rows, salaryMask.value, SalaryTest(s));
        FilterTwice(t.rows, a, s);
      }
    }
  }


  // ------------------------------------------------------------ steps 2 to 6 on the renamed table

  /** No rule touches the age column: after steps 2 to 5 it holds the cells it had. */
  lemma AgeColumnKept(u: Table)
    requires WellFormed(u) && CellStages(u).Ok? && "age" in u.columns
    ensures forall i :: 0 <= i < |u.rows| ==>
              CellStages(u).value.rows[i][ColumnIndex(u.columns, "age").value] ==
                u.rows[i][ColumnIndex(u.columns, "age").value]
  {
    var a := ColumnIndex(u.columns, "age").value;
    StagesMatchCleanRows(u);
    assert IsFirstOfName(u.columns, a);
    forall i | 0 <= i < |u.rows| ensures CellStages(u).value.rows[i][a] == u.rows[i][a] {
      AgeHasNoRule(u.rows[i][a]);
    }
  }

  /** Steps 2 to 6 succeed exactly under Succeeds. */
  lemma AfterRenameSucceeds(u: Table)
    requires WellFormed(u)
    ensures AfterRename(u).Ok? <==> Succeeds(u)
  {
    StagesSucceed(u);
    var filled := CellStages(u);
    if filled.Ok? {
      assert AfterRename(u) == Validate(filled.value);
      ValidateMatches(filled.value);
      if "age" in u.columns {
        var a := ColumnIndex(u.columns, "age").value;
        AgeColumnKept(u);
        assert (forall i :: 0 <= i < |u.rows| ==> AgeInRange(filled.value.rows[i][a]).Some?) <==>
               (forall i :: 0 <= i < |u.rows| ==> AgeInRange(u.rows[i][a]).Some?);
      }
    }
  }

  /** When steps 2 to 6 succeed they return Expected. */
  lemma AfterRenameMatchesReference(u: Table)
    requires WellFormed(u) && Succeeds(u)
    ensures AfterRename(u) == Ok(Expected(u))
  {
    AfterRenameSucceeds(u);
    StagesSucceed(u);
    var filled := CellStages(u).value;
    assert AfterRename(u) == Validate(filled);
    StagesMatchCleanRows(u);
    ValidateMatches(filled);
  }

  /** Which exception steps 2 to 6 raise, in the order they reach them. */
  lemma AfterRenameErrors(u: Table)
    requires WellFormed(u)
    ensures "dob" !in u.columns ==> AfterRename(u) == Err(MissingColumn("dob"))
    ensures "dob" in u.columns && "hire_date" !in u.columns ==> AfterRename(u) == Err(MissingColumn("hire_date"))
    ensures "dob" in u.columns && "hire_date" in u.columns && "salary" !in u.columns ==>
              AfterRename(u) == Err(MissingColumn("salary"))
    ensures ConvertColumns(u).Ok? && !CastableColumns(u, LeaveColumns) ==>
              AfterRename(u).Err? && AfterRename(u).error.LeaveCastFailed? && AfterRename(u).error.column in LeaveColumns &&
              FirstUncastable(u, LeaveColumns, AfterRename(u).error.column)
    ensures CellStages(u).Ok? && "age" !in u.columns ==> AfterRename(u) == Err(MissingColumn("age"))
    ensures CellStages(u).Ok? && "age" in u.columns && !Succeeds(u) ==> AfterRename(u) == Err(AgeNotComparable)
  {
    StagesSucceed(u);
    AfterRenameSucceeds(u);
    var converted := ConvertColumns(u);
    if converted.Ok? {
      var trimmed := TrimColumns(converted.value, TextColumns);
      if FillColumns(trimmed, LeaveColumns).Ok? {
        var filled := CellStages(u).value;
        assert AfterRename(u) == Validate(filled);
        assert filled.columns == u.columns;
      } else {
        StagesCastFailure(u);
        assert AfterRename(u) == Err(CellStages(u).error);
      }
    } else {
      var a := ApplyColumn(u, "dob", ParseDate);
      if a.Ok? {
        var b := ApplyColumn(a.value, "hire_date", ParseDate);
      }
    }
  }

  /** The reference output: cleaned input rows, in input order, each with an age from 18 to 100 and a positive salary. */
  lemma ExpectedRows(u: Table)
    requires WellFormed(u) && "age" in u.columns && "salary" in u.columns
    ensures IsSubsequence(Expected(u).rows, CleanRows(u.columns, u.rows))
    ensures forall r :: r in Expected(u).rows ==>
              exists i :: 0 <= i < |u.rows| && r == CleanRow(u.columns, u.rows[i])
    ensures forall r: Row :: r in Expected(u).rows ==>
              Passes(r, BothTests(ColumnIndex(u.columns, "age").value, ColumnIndex(u.columns, "salary").value))
  {
    var test := BothTests(ColumnIndex(u.columns, "age").value, ColumnIndex(u.columns, "salary").value);
    var cleaned := CleanRows(u.columns, u.rows);
    assert Expected(u).rows == FilterRows(cleaned, test);
    FilterRowsSubsequence(cleaned, test);
    FilterRowsMembers(cleaned, test);
    forall r | r in Expected(u).rows
      ensures exists i :: 0 <= i < |u.rows| && r == CleanRow(u.columns, u.rows[i])
    {
      var i :| 0 <= i < |cleaned| && cleaned[i] == r;
    }
  }

  /** The rows steps 2 to 6 return are cleaned rows, in order, each with an age from 18 to 100 and a positive salary. */
  lemma AfterRenameOutputRows(u: Table)
    requires WellFormed(u) && AfterRename(u).Ok?
    ensures IsSubsequence(AfterRename(u).value.rows, CleanRows(u.columns, u.rows))
    ensures forall r :: r in AfterRename(u).value.rows ==>
              exists i :: 0 <= i < |u.rows| && r == CleanRow(u.columns, u.rows[i])
    ensures forall r: Row :: r in AfterRename(u).value.rows ==>
              Passes(r, BothTests(ColumnIndex(u.columns, "age").value, ColumnIndex(u.columns, "salary").value))
  {
    AfterRenameSucceeds(u);
    AfterRenameMatchesReference(u);
    ExpectedRows(u);
  }

  lemma SalaryRule(v: Value)
    ensures CellRule("salary", v) == CleanSalaryCell(v)
  {
  }

  /** Cleaning a row leaves its age cell alone. */
  lemma CleanRowAge(columns: seq<string>, row: Row)
    requires |row| == |columns| && "age" in columns
    ensures CleanRow(columns, row)[ColumnIndex(columns, "age").value] == row[ColumnIndex(columns, "age").value]
  {
    var a := ColumnIndex(columns, "age").value;
    assert IsFirstOfName(columns, a);
    AgeHasNoRule(row[a]);
  }

  /** Cleaning a row turns its salary cell into CleanSalaryCell of it. */
  lemma CleanRowSalary(columns: seq<string>, row: Row)
    requires |row| == |columns| && "salary" in columns
    ensures CleanRow(columns, row)[ColumnIndex(columns, "salary").value] ==
              CleanSalaryCell(row[ColumnIndex(columns, "salary").value])
  {
    var s := ColumnIndex(columns, "salary").value;
    assert IsFirstOfName(columns, s);
    SalaryRule(row[s]);
  }

  lemma SalaryPasses(v: Value)
    ensures SalaryPositive(CleanSalaryCell(v)) <==> CleanSalary(v).Some? && CleanSalary(v).value > 0.0
  {
  }

  /** Whether the reference output keeps a cleaned row, in terms of the row's own age and salary cells. */
  lemma ExpectedKeeps(u: Table, i: nat)
    requires WellFormed(u) && "age" in u.columns && "salary" in u.columns && i < |u.rows|
    ensures CleanRow(u.columns, u.rows[i]) in Expected(u).rows <==>
              AgeInRange(u.rows[i][ColumnIndex(u.columns, "age").value]) == Some(true) &&
              CleanSalary(u.rows[i][ColumnIndex(u.columns, "salary").value]).Some? &&
              CleanSalary(u.rows[i][ColumnIndex(u.columns, "salary").value]).value > 0.0
  {
    var a := ColumnIndex(u.columns, "age").value;
    var s := ColumnIndex(u.columns, "salary").value;
    var cleaned := CleanRows(u.columns, u.rows);
    FilterRowsMembers(cleaned, BothTests(a, s));
    var r := CleanRow(u.columns, u.rows[i]);
    assert r == cleaned[i];
    CleanRowAge(u.columns, u.rows[i]);
    CleanRowSalary(u.columns, u.rows[i]);
    SalaryPasses(u.rows[i][s]);
  }

  /** Steps 2 to 6 keep a cleaned row exactly when its age is from 18 to 100 and its salary parses to a number above zero. */
  lemma AfterRenameKeeps(u: Table, i: nat)
    requires WellFormed(u) && AfterRename(u).Ok? && i < |u.rows|
    ensures CleanRow(u.columns, u.rows[i]) in AfterRename(u).value.rows <==>
              AgeInRange(u.rows[i][ColumnIndex(u.columns, "age").value]) == Some(true) &&
              CleanSalary(u.rows[i][ColumnIndex(u.columns, "salary").value]).Some? &&
              CleanSalary(u.rows[i][ColumnIndex(u.columns, "salary").value]).value > 0.0
  {
    AfterRenameSucceeds(u);
    AfterRenameMatchesReference(u);
    ExpectedKeeps(u, i);
  }

  /** The cell rules as they apply to each kind of column. */
  lemma CellRuleByColumn(name: string, v: Value)
    ensures name in LeaveColumns ==> CellRule(name, v) == FillCast(v)
    ensures name in TextColumns ==> CellRule(name, v) == TrimCell(v)
  {
    RuleNamesDisjoint();
  }

  /** What one output cell of a leave, text or date column holds. */
  predicate ColumnKindHolds(name: string, v: Value) {
    (name in LeaveColumns ==> v.Int?) &&
    (name in TextColumns ==> v.Missing? || (v.Str? && IsTrimmed(v.s))) &&
    (name == "dob" || name == "hire_date" ==> v.Missing? || v.Date?)
  }

  lemma CellRuleKind(name: string, v: Value)
    requires name in LeaveColumns ==> IsCastable(v)
    ensures ColumnKindHolds(name, CellRule(name, v))
  {
    CellRuleByColumn(name, v);
  }

  /**
   * In the output of steps 2 to 6, the leave columns hold integers (a missing
   * count became 0), the text columns hold stripped text or nothing, and the
   * date columns hold a calendar day or nothing.
   */
  lemma AfterRenameOutputColumns(u: Table)
    requires WellFormed(u) && AfterRename(u).Ok?
    ensures forall r: Row, k :: r in AfterRename(u).value.rows && 0 <= k < |u.columns| && IsFirstOfName(u.columns, k) ==>
              ColumnKindHolds(u.columns[k], r[k])
  {
    AfterRenameSucceeds(u);
    AfterRenameOutputRows(u);
    forall r: Row, k | r in AfterRename(u).value.rows && 0 <= k < |u.columns| && IsFirstOfName(u.columns, k)
      ensures ColumnKindHolds(u.columns[k], r[k])
    {
      var i :| 0 <= i < |u.rows| && r == CleanRow(u.columns, u.rows[i]);
      assert r[k] == CellRule(u.columns[k], u.rows[i][k]);
      CellRuleKind(u.columns[k], u.rows[i][k]);
    }
  }

  // ------------------------------------------------------------ transform_data

  /** `transform_data` succeeds exactly when steps 2 to 6 do on the renamed table. */
  lemma TransformSucceeds(t: Table)
    requires WellFormed(t)
    ensures TransformSteps(t).Ok? <==> Succeeds(Renamed(t))
  {
    AfterRenameSucceeds(Renamed(t));
  }

  /** When `transform_data` succeeds it returns the cleaned input rows that pass both tests, in order, under the cleaned names. */
  lemma TransformStepsMatchReference(t: Table)
    requires WellFormed(t) && Succeeds(Renamed(t))
    ensures TransformSteps(t) == Ok(Expected(Renamed(t)))
  {
    AfterRenameMatchesReference(Renamed(t));
  }

  /** Which exception `transform_data` raises, in the order it reaches them. */
  lemma TransformErrors(t: Table)
    requires WellFormed(t)
    ensures var u := Renamed(t);
      ("dob" !in u.columns ==> TransformSteps(t) == Err(MissingColumn("dob"))) &&
      ("dob" in u.columns && "hire_date" !in u.columns ==> TransformSteps(t) == Err(MissingColumn("hire_date"))) &&
      ("dob" in u.columns && "hire_date" in u.columns && "salary" !in u.columns ==>
         TransformSteps(t) == Err(MissingColumn("salary"))) &&
      (ConvertColumns(u).Ok? && !CastableColumns(u, LeaveColumns) ==>
         TransformSteps(t).Err? && TransformSteps(t).error.LeaveCastFailed? && TransformSteps(t).error.column in LeaveColumns &&
         FirstUncastable(u, LeaveColumns, TransformSteps(t).error.column)) &&
      (CellStages(u).Ok? && "age" !in u.columns ==> TransformSteps(t) == Err(MissingColumn("age"))) &&
      (CellStages(u).Ok? && "age" in u.columns && !Succeeds(u) ==> TransformSteps(t) == Err(AgeNotComparable))
  {
    AfterRenameErrors(Renamed(t));
  }

  /**
   * The output rows are cleaned input rows, in input order, each with an age
   * from 18 to 100 and a positive salary.
   */
  lemma TransformOutputRows(t: Table)
    requires WellFormed(t) && TransformSteps(t).Ok?
    ensures var u := Renamed(t);
      IsSubsequence(TransformSteps(t).value.rows, CleanRows(u.columns, t.rows)) &&
      (forall r :: r in TransformSteps(t).value.rows ==> exists i :: 0 <= i < |t.rows| && r == CleanRow(u.columns, t.rows[i])) &&
      (forall r: Row :: r in TransformSteps(t).value.rows ==>
         var a := ColumnIndex(u.columns, "age").value;
         var s := ColumnIndex(u.columns, "salary").value;
         AgeInRange(r[a]) == Some(true) && r[s].Num? && r[s].r > 0.0)
  {
    AfterRenameOutputRows(Renamed(t));
  }

  /**
   * A row is kept exactly when its age is from 18 to 100 and its salary text
   * parses to a number above zero: a salary that does not parse always drops
   * the row.
   */
  lemma TransformKeeps(t: Table, i: nat)
    requires WellFormed(t) && TransformSteps(t).Ok? && i < |t.rows|
    ensures var u := Renamed(t);
      CleanRow(u.columns, t.rows[i]) in TransformSteps(t).value.rows <==>
        AgeInRange(t.rows[i][ColumnIndex(u.columns, "age").value]) == Some(true) &&
        CleanSalary(t.rows[i][ColumnIndex(u.columns, "salary").value]).Some? &&
        CleanSalary(t.rows[i][ColumnIndex(u.columns, "salary").value]).value > 0.0
  {
    AfterRenameKeeps(Renamed(t), i);
  }

  /**
   * In the output, the leave columns that are there hold integers, the text
   * columns that are there hold stripped text or nothing, and the date
   * columns hold a calendar day or nothing.
   */
  lemma TransformOutputColumns(t: Table)
    requires WellFormed(t) && TransformSteps(t).Ok?
    ensures var u := Renamed(t);
      forall r: Row, k :: r in TransformSteps(t).value.rows && 0 <= k < |t.columns| && IsFirstOfName(u.columns, k) ==>
        ColumnKindHolds(u.columns[k], r[k])
  {
    AfterRenameOutputColumns(Renamed(t));
  }
}
