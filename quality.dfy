/**
 * `get_data_quality_report`: row and column counts, the number of missing
 * cells per column, and the number of rows that repeat an earlier row.
 */
module Quality {
  import opened Tables

  /** The report's counts; `missingValues[k]` belongs to `columns[k]`. */
  datatype QualityReport = QualityReport(totalRows: nat, totalColumns: nat, missingValues: seq<nat>, duplicates: nat)

  /** Number of entries of the mask that are true (`mask.sum()`). */
  function CountTrue(mask: seq<bool>): (r: nat)
    ensures r <= |mask|
  {
    if mask == [] then 0 else (if mask[0] then 1 else 0) + CountTrue(mask[1..])
  }

  lemma {:induction false} CountTrueZero(mask: seq<bool>)
    ensures CountTrue(mask) == 0 <==> forall i :: 0 <= i < |mask| ==> !mask[i]
  {
    if mask != [] {
      CountTrueZero(mask[1..]);
      assert forall i :: 1 <= i < |mask| ==> mask[1..][i - 1] == mask[i];
    }
  }

  lemma {:induction false} CountTrueAll(mask: seq<bool>)
    ensures CountTrue(mask) == |mask| <==> forall i :: 0 <= i < |mask| ==> mask[i]
  {
    if mask != [] {
      CountTrueAll(mask[1..]);
      assert forall i :: 1 <= i < |mask| ==> mask[1..][i - 1] == mask[i];
    }
  }

  lemma {:induction false} CountTrueSnoc(mask: seq<bool>, b: bool)
    ensures CountTrue(mask + [b]) == CountTrue(mask) + if b then 1 else 0
  {
    if mask == [] {
      assert [] + [b] == [b];
    } else {
      assert (mask + [b])[1..] == mask[1..] + [b];
      CountTrueSnoc(mask[1..], b);
    }
  }

  /** The number of true entries is the number of positions holding true. */
  lemma {:induction false} CountTrueSet(mask: seq<bool>)
    ensures CountTrue(mask) == |set i | 0 <= i < |mask| && mask[i]|
    decreases |mask|
  {
    if mask != [] {
      var n := |mask| - 1;
      var front, b := mask[..n], mask[n];
      assert mask == front + [b];
      CountTrueSnoc(front, b);
      CountTrueSet(front);
      var before := set i | 0 <= i < |front| && front[i];
      var all := set i | 0 <= i < |mask| && mask[i];
      assert n !in before;
      if b {
        assert all == before + {n};
      } else {
        assert all == before;
      }
    }
  }

  /** `df[column k].isnull()`. */
  function MissingMask(rows: seq<Row>, k: nat): (r: seq<bool>)
    requires forall i :: 0 <= i < |rows| ==> k < |rows[i]|
    ensures |r| == |rows|
    ensures forall i :: 0 <= i < |rows| ==> (r[i] <==> rows[i][k].Missing?)
  {
    seq(|rows|, i requires 0 <= i < |rows| => rows[i][k].Missing?)
  }

  /**
   * `df.isnull().sum()` for column k: zero exactly when no cell of the column
   * is missing, the row count exactly when every cell is.
   */
  function MissingCount(rows: seq<Row>, k: nat): (r: nat)
    requires forall i :: 0 <= i < |rows| ==> k < |rows[i]|
    ensures r <= |rows|
    ensures r == 0 <==> forall i :: 0 <= i < |rows| ==> !rows[i][k].Missing?
    ensures r == |rows| <==> forall i :: 0 <= i < |rows| ==> rows[i][k].Missing?
    ensures r == |set i | 0 <= i < |rows| && rows[i][k].Missing?|
  {
    CountTrueZero(MissingMask(rows, k));
    CountTrueAll(MissingMask(rows, k));
    CountTrueSet(MissingMask(rows, k));
    assert (set i | 0 <= i < |rows| && MissingMask(rows, k)[i]) == (set i | 0 <= i < |rows| && rows[i][k].Missing?);
    CountTrue(MissingMask(rows, k))
  }

  /** `df.duplicated()`: entry i is true when row i equals some earlier row (pandas' default keep='first'). */
  function Duplicated(rows: seq<Row>): (r: seq<bool>)
    ensures |r| == |rows|
    ensures forall i :: 0 <= i < |rows| ==> (r[i] <==> rows[i] in rows[..i])
  {
    if rows == [] then []
    else
      var n := |rows| - 1;
      var r := Duplicated(rows[..n]) + [rows[n] in rows[..n]];
      assert forall i :: 0 <= i < n ==> rows[..n][..i] == rows[..i];
      r
  }

  /** The distinct rows of `rows`. */
  function Distinct(rows: seq<Row>): set<Row> {
    set i | 0 <= i < |rows| :: rows[i]
  }

  /** Adding one row to the end grows the distinct set exactly when the row is new. */
  lemma DistinctSnoc(rows: seq<Row>, x: Row)
    ensures Distinct(rows + [x]) == Distinct(rows) + {x}
    ensures x in rows <==> x in Distinct(rows)
  {
    var ys := rows + [x];
    forall y | y in Distinct(ys)
      ensures y in Distinct(rows) + {x}
    {
      var i :| 0 <= i < |ys| && ys[i] == y;
      if i < |rows| {
        assert rows[i] == y;
      }
    }
    forall y | y in Distinct(rows) + {x}
      ensures y in Distinct(ys)
    {
      if y == x {
        assert ys[|rows|] == x;
      } else {
        var i :| 0 <= i < |rows| && rows[i] == y;
        assert ys[i] == y;
      }
    }
    if x in rows {
      var i :| 0 <= i < |rows| && rows[i] == x;
    }
  }

  /** The number of rows that repeat an earlier one is the number of rows less the number of distinct rows. */
  lemma {:induction false} DuplicatedCount(rows: seq<Row>)
    ensures CountTrue(Duplicated(rows)) + |Distinct(rows)| == |rows|
  {
    if rows == [] {
      assert Distinct(rows) == {};
    } else {
      var n := |rows| - 1;
      var front := rows[..n];
      var x := rows[n];
      assert rows == front + [x];
      DuplicatedCount(front);
      DistinctSnoc(front, x);
      assert Duplicated(rows) == Duplicated(front) + [x in front];
      CountTrueSnoc(Duplicated(front), x in front);
      assert CountTrue(Duplicated(rows)) == CountTrue(Duplicated(front)) + if x in front then 1 else 0;
      if x in front {
        assert Distinct(rows) == Distinct(front);
      } else {
        assert |Distinct(rows)| == |Distinct(front)| + 1;
      }
    }
  }

  /** No duplicates exactly when all rows are pairwise different. */
  lemma NoneDuplicated(rows: seq<Row>)
    ensures CountTrue(Duplicated(rows)) == 0 <==> forall i, j :: 0 <= i < j < |rows| ==> rows[i] != rows[j]
  {
    var d := Duplicated(rows);
    CountTrueZero(d);
    if CountTrue(d) == 0 {
      forall i, j | 0 <= i < j < |rows|
        ensures rows[i] != rows[j]
      {
        assert !d[j];
        assert rows[..j][i] == rows[i];
      }
    } else {
      var j :| 0 <= j < |rows| && d[j];
      var i :| 0 <= i < j && rows[..j][i] == rows[j];
      assert rows[i] == rows[j];
    }
  }

  /**
   * `df.duplicated().sum()`: the number of rows less the number of distinct
   * rows, and zero exactly when all rows are pairwise different.
   */
  function Duplicates(rows: seq<Row>): (r: nat)
    ensures r <= |rows|
    ensures r + |Distinct(rows)| == |rows|
    ensures r == 0 <==> forall i, j :: 0 <= i < j < |rows| ==> rows[i] != rows[j]
  {
    DuplicatedCount(rows);
    NoneDuplicated(rows);
    CountTrue(Duplicated(rows))
  }

  /** `get_data_quality_report(df)` without the dtype strings. */
  function QualityReportOf(t: Table): (r: QualityReport)
    requires WellFormed(t)
    ensures r.totalRows == |t.rows| && r.totalColumns == |t.columns|
    ensures |r.missingValues| == |t.columns|
    ensures forall k :: 0 <= k < |t.columns| ==> r.missingValues[k] == MissingCount(t.rows, k) <= r.totalRows
    ensures r.duplicates <= r.totalRows
    ensures |t.columns| > 0 ==> r.duplicates + |Distinct(t.rows)| == r.totalRows
    ensures |t.columns| == 0 ==> r.duplicates == 0
  {
    QualityReport(
      |t.rows|,
      |t.columns|,
      seq(|t.columns|, k requires 0 <= k < |t.columns| => MissingCount(t.rows, k)),
      // pandas' `duplicated()` on a frame with no columns (an `empty` frame) is an empty Series
      if |t.columns| == 0 then 0 else Duplicates(t.rows))
  }

  /** A frame with rows but no columns reports no duplicates, although its rows are all equal. */
  lemma NoColumnsReport()
    ensures QualityReportOf(Table([], [[], []])).duplicates == 0
    ensures Duplicates([[], []]) == 1
  {
    var rows: seq<Row> := [[], []];
    assert Distinct(rows) == {[]} by {
      assert rows[0] == [];
    }
  }

  /** An empty table reports no missing cells and no duplicates. */
  lemma EmptyReport(t: Table)
    requires WellFormed(t) && t.rows == []
    ensures QualityReportOf(t).duplicates == 0
    ensures forall k :: 0 <= k < |t.columns| ==> QualityReportOf(t).missingValues[k] == 0
  {
  }
}
