/**
 * The data frame as a mutable object, and `transform_data` as the sequence
 * of in-place column updates and row filters the source performs on a copy
 * of its argument. Each step is proved to do what the matching function of
 * module Transform says, so the whole method computes `TransformSteps`.
 */
module Frames {
  import opened Wrappers
  import opened Tables
  import opened ColumnNames
  import opened Salary
  import opened Dates
  import opened Transform

  class Frame {
    var columns: seq<string>
    var rows: seq<Row>

    /** The frame's current contents as a value. */
    function Model(): Table
      reads this
    {
      Table(columns, rows)
    }

    predicate Valid()
      reads this
    {
      WellFormed(Model())
    }

    constructor(t: Table)
      requires WellFormed(t)
      ensures Model() == t && Valid()
    {
      columns := t.columns;
      rows := t.rows;
    }

    /** `df.copy()`: a new frame with the same contents. */
    method Copy() returns (f: Frame)
      requires Valid()
      ensures fresh(f) && f.Valid() && f.Model() == Model()
    {
      f := new Frame(Model());
    }

    /** `clean_column_names(df)`: replaces the header in place, the rows are untouched. */
    method CleanColumnNames()
      requires Valid()
      modifies this
      ensures Valid()
      ensures columns == CleanNames(old(columns)) && rows == old(rows)
      ensures Model() == Renamed(old(Model()))
    {
      columns := CleanNames(columns);
    }

    /**
     * `df[name] = df[name].apply(f)`: ok is false exactly when the column is
     * missing (the KeyError), and then nothing changes.
     */
    method Apply(name: string, f: Value -> Value) returns (ok: bool)
      requires Valid()
      modifies this
      ensures Valid()
      ensures ok <==> name in old(columns)
      ensures ok ==> ApplyColumn(old(Model()), name, f) == Ok(Model())
      ensures !ok ==> Model() == old(Model())
    {
      var k := ColumnIndex(columns, name);
      if k.None? {
        return false;
      }
      rows := MapColumn(rows, k.value, f);
      return true;
    }

    /**
     * `df[name] = df[name].fillna(0).astype(int)` on a column that exists:
     * ok is false exactly when some cell cannot be converted (the cast
     * raises), and then nothing changes.
     */
    method Fill(name: string) returns (ok: bool)
      requires Valid() && name in columns
      modifies this
      ensures Valid()
      ensures ok <==> FillColumn(old(Model()), name).Ok?
      ensures ok ==> FillColumn(old(Model()), name) == Ok(Model())
      ensures !ok ==> Model() == old(Model())
    {
      var k := ColumnIndex(columns, name).value;
      if forall i :: 0 <= i < |rows| ==> IsCastable(rows[i][k]) {
        rows := MapColumn(rows, k, FillCast);
        return true;
      }
      return false;
    }

    /** `df[mask]`: a new frame holding the rows whose mask entry is true. */
    method Filter(mask: seq<bool>) returns (f: Frame)
      requires Valid() && |mask| == |rows|
      ensures fresh(f) && f.Valid() && f.Model() == KeepRows(Model(), mask)
    {
      f := new Frame(KeepRows(Model(), mask));
    }
  }

  /** The text loop's remaining work, one column at a time. */
  lemma TrimStep(t: Table, names: seq<string>, i: nat)
    requires WellFormed(t) && i < |names|
    ensures TrimColumns(t, names[i..]) == TrimColumns(TrimColumn(t, names[i]), names[i + 1..])
  {
    assert names[i..][1..] == names[i + 1..];
  }

  /** The leave loop's remaining work, one column at a time. */
  lemma FillStep(t: Table, names: seq<string>, i: nat)
    requires WellFormed(t) && i < |names|
    ensures FillColumns(t, names[i..]) ==
              match FillColumn(t, names[i])
              case Err(e) => Err(e)
              case Ok(u) => FillColumns(u, names[i + 1..])
  {
    assert names[i..][1..] == names[i + 1..];
  }

  /** Steps 2 and 3 on `work`: the two date columns, then the salary column. */
  method ConvertInPlace(work: Frame) returns (r: Result<(), TransformError>)
    requires work.Valid()
    modifies work
    ensures work.Valid()
    ensures r.Ok? <==> ConvertColumns(old(work.Model())).Ok?
    ensures r.Ok? ==> ConvertColumns(old(work.Model())) == Ok(work.Model())
    ensures r.Err? ==> ConvertColumns(old(work.Model())) == Err(r.error)
  {
    var ok := work.Apply("dob", ParseDate);
    if !ok {
      return Err(MissingColumn("dob"));
    }
    ok := work.Apply("hire_date", ParseDate);
    if !ok {
      return Err(MissingColumn("hire_date"));
    }
    ok := work.Apply("salary", CleanSalaryCell);
    if !ok {
      return Err(MissingColumn("salary"));
    }
    return Ok(());
  }

  /** Step 4 on `work`: strips every text column that is present, skipping the others. */
  method TrimInPlace(work: Frame)
    requires work.Valid()
    modifies work
    ensures work.Valid()
    ensures work.Model() == TrimColumns(old(work.Model()), TextColumns)
  {
    var i := 0;
    while i < |TextColumns|
      invariant 0 <= i <= |TextColumns|
      invariant work.Valid()
      invariant TrimColumns(work.Model(), TextColumns[i..]) == TrimColumns(old(work.Model()), TextColumns)
    {
      var name := TextColumns[i];
      ghost var before := work.Model();
      TrimStep(before, TextColumns, i);
      var _ := work.Apply(name, TrimCell);
      assert work.Model() == TrimColumn(before, name);
      i := i + 1;
    }
  }

  /** Step 5 on `work`: converts every leave column that is present, stopping at the first that cannot be cast. */
  method FillInPlace(work: Frame) returns (r: Result<(), TransformError>)
    requires work.Valid()
    modifies work
    ensures work.Valid()
    ensures r.Ok? <==> FillColumns(old(work.Model()), LeaveColumns).Ok?
    ensures r.Ok? ==> FillColumns(old(work.Model()), LeaveColumns) == Ok(work.Model())
    ensures r.Err? ==> FillColumns(old(work.Model()), LeaveColumns) == Err(r.error)
  {
    var i := 0;
    while i < |LeaveColumns|
      invariant 0 <= i <= |LeaveColumns|
      invariant work.Valid()
      invariant FillColumns(work.Model(), LeaveColumns[i..]) == FillColumns(old(work.Model()), LeaveColumns)
    {
      var name := LeaveColumns[i];
      FillStep(work.Model(), LeaveColumns, i);
      if name in work.columns {
        var ok := work.Fill(name);
        if !ok {
          return Err(LeaveCastFailed(name));
        }
      }
      i := i + 1;
    }
    return Ok(());
  }

  /** Step 6: `df = df[age mask]`, then `df = df[salary mask]`, each producing a new frame. */
  method ValidateFrame(work: Frame) returns (r: Result<Frame, TransformError>)
    requires work.Valid()
    ensures r.Ok? ==> fresh(r.value) && r.value.Valid() && Validate(work.Model()) == Ok(r.value.Model())
    ensures r.Err? ==> Validate(work.Model()) == Err(r.error)
  {
    var ageMask := AgeMask(work.Model());
    if ageMask.Err? {
      return Err(ageMask.error);
    }
    var adults := work.Filter(ageMask.value);
    var salaryMask := SalaryMask(adults.Model());
    if salaryMask.Err? {
      return Err(salaryMask.error);
    }
    var kept := adults.Filter(salaryMask.value);
    return Ok(kept);
  }

  /**
   * `transform_data(df)`: works on a copy, so the caller's frame is not
   * modified, and the result (a new frame, or the error the stage raises)
   * is `TransformSteps` of its contents.
   */
  method TransformData(df: Frame) returns (r: Result<Frame, TransformError>)
    requires df.Valid()
    ensures unchanged(df)
    ensures r.Ok? ==> fresh(r.value) && r.value.Valid() && TransformSteps(df.Model()) == Ok(r.value.Model())
    ensures r.Err? ==> TransformSteps(df.Model()) == Err(r.error)
  {
    var work := df.Copy();
    work.CleanColumnNames();
    ghost var renamed := work.Model();
    var converted := ConvertInPlace(work);
    if converted.Err? {
      return Err(converted.error);
    }
    TrimInPlace(work);
    var filled := FillInPlace(work);
    if filled.Err? {
      return Err(filled.error);
    }
    assert CellStages(renamed) == Ok(work.Model());
    r := ValidateFrame(work);
  }
}
