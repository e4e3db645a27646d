/**
 * `run_etl_pipeline`: the results record the orchestrator creates, updates
 * after each phase and completes with the timing summary. Extract, load and
 * verify are the outcomes of I/O and enter as parameters; the transform and
 * the quality report are the modelled ones.
 */
module Pipeline {
  import opened Wrappers
  import opened Tables
  import opened Transform
  import opened Frames
  import opened Quality

  datatype Status = Failed | Success

  /** What `str(e)` in the except branch came from: the extract phase's error or the transform stage's. */
  datatype PipelineError = ExtractFailed(message: string) | TransformFailed(cause: TransformError)

  /** The results dictionary as a value; the two optional keys are None while absent. */
  datatype Record = Record(
    status: Status,
    startTime: real,
    rowsExtracted: int,
    rowsTransformed: int,
    rowsLoaded: int,
    error: Option<PipelineError>,
    endTime: Option<real>,
    duration: Option<real>)

  class Results {
    var status: Status
    var startTime: real
    var rowsExtracted: int
    var rowsTransformed: int
    var rowsLoaded: int
    var error: Option<PipelineError>
    var endTime: Option<real>
    var duration: Option<real>

    function Snapshot(): Record
      reads this
    {
      Record(status, startTime, rowsExtracted, rowsTransformed, rowsLoaded, error, endTime, duration)
    }

    /** The dictionary literal: failed, the start time, all three counts zero, no error and no summary yet. */
    constructor(start: real)
      ensures Snapshot() == Record(Failed, start, 0, 0, 0, None, None, None)
    {
      status := Failed;
      startTime := start;
      rowsExtracted := 0;
      rowsTransformed := 0;
      rowsLoaded := 0;
      error := None;
      endTime := None;
      duration := None;
    }

    /** The summary after the try block: the end time and the elapsed seconds since the start time. */
    method RecordSummary(end: real)
      modifies this
      ensures Snapshot() == Summary(old(Snapshot()), end)
    {
      endTime := Some(end);
      duration := Some(end - startTime);
    }
  }

  /** The record after the transform, report and load phases, given the transform's outcome and the record after extract. */
  function RestOfTry(transformed: Result<Table, TransformError>, loadSucceeds: bool, verifiedCount: int,
                        afterExtract: Record): (r: Record)
    ensures r.startTime == afterExtract.startTime && r.rowsExtracted == afterExtract.rowsExtracted
    ensures r.endTime == afterExtract.endTime && r.duration == afterExtract.duration
    ensures transformed.Err? ==>
              r == afterExtract.(error := Some(TransformFailed(transformed.error)))
    ensures transformed.Ok? ==>
              r.error == afterExtract.error && r.rowsTransformed == |transformed.value.rows| &&
              (r.status == Success <==> loadSucceeds || afterExtract.status == Success) &&
              r.rowsLoaded == (if loadSucceeds then verifiedCount else afterExtract.rowsLoaded)
  {
    match transformed
    case Err(cause) => afterExtract.(error := Some(TransformFailed(cause)))
    case Ok(clean) =>
      var afterTransform := afterExtract.(rowsTransformed := |clean.rows|);
      if loadSucceeds then afterTransform.(rowsLoaded := verifiedCount, status := Success)
      else afterTransform
  }

  /** The record at the end of the try block: it stops at the first phase that raises. */
  function AfterTry(extracted: Result<Table, string>, loadSucceeds: bool, verifiedCount: int, initial: Record): (r: Record)
    requires extracted.Ok? ==> WellFormed(extracted.value)
    ensures r.startTime == initial.startTime && r.endTime == initial.endTime && r.duration == initial.duration
    ensures extracted.Err? ==> r == initial.(error := Some(ExtractFailed(extracted.error)))
    ensures extracted.Ok? ==> r.rowsExtracted == |extracted.value.rows|
    ensures extracted.Ok? && initial.rowsTransformed == 0 ==> 0 <= r.rowsTransformed <= r.rowsExtracted
    ensures initial.error.None? ==> (r.error.Some? <==> extracted.Err? || TransformSteps(extracted.value).Err?)
  {
    match extracted
    case Err(message) => initial.(error := Some(ExtractFailed(message)))
    case Ok(raw) => RestOfTry(TransformSteps(raw), loadSucceeds, verifiedCount, initial.(rowsExtracted := |raw.rows|))
  }

  /** The summary written after the try block: the end time, and the seconds elapsed since the recorded start time. */
  function Summary(r: Record, endClock: real): (s: Record)
    ensures s.endTime == Some(endClock) && s.duration.Some? && s.startTime + s.duration.value == endClock
    ensures s.(endTime := r.endTime, duration := r.duration) == r
  {
    r.(endTime := Some(endClock), duration := Some(endClock - r.startTime))
  }

  /**
   * The record `run_etl_pipeline` returns: the initial dictionary, the try
   * block, then the summary, which is written on every path.
   */
  function FinalRecord(extracted: Result<Table, string>, loadSucceeds: bool, verifiedCount: int,
                       startClock: real, endClock: real): (r: Record)
    requires extracted.Ok? ==> WellFormed(extracted.value)
    ensures r.startTime == startClock && r.endTime == Some(endClock) && r.duration == Some(endClock - startClock)
  {
    Summary(AfterTry(extracted, loadSucceeds, verifiedCount, Record(Failed, startClock, 0, 0, 0, None, None, None)), endClock)
  }

  /** Phase 2: `transform_data` on a frame holding the extracted table, as a table again. */
  method TransformPhase(raw: Table) returns (transformed: Result<Table, TransformError>)
    requires WellFormed(raw)
    ensures transformed == TransformSteps(raw)
  {
    var dfRaw := new Frame(raw);
    var result := TransformData(dfRaw);
    if result.Err? {
      return Err(result.error);
    }
    return Ok(result.value.Model());
  }

  /** The updates phases 2 and 3 make to the record, given the transform's outcome, load's and verify's. */
  method RecordTransformAndLoad(results: Results, transformed: Result<Table, TransformError>,
                                loadSucceeds: bool, verifiedCount: int)
    modifies results
    ensures results.Snapshot() == RestOfTry(transformed, loadSucceeds, verifiedCount, old(results.Snapshot()))
  {
    match transformed {
      case Err(cause) =>
        results.error := Some(TransformFailed(cause));
      case Ok(clean) =>
        results.rowsTransformed := |clean.rows|;
        if loadSucceeds {
          results.rowsLoaded := verifiedCount;
          results.status := Success;
        }
    }
  }

  /** The quality report the try block computes: on the transformed table, when there is one. */
  function ReportOf(extracted: Result<Table, string>): (r: Option<QualityReport>)
    requires extracted.Ok? ==> WellFormed(extracted.value)
    ensures r.Some? <==> extracted.Ok? && TransformSteps(extracted.value).Ok?
    ensures r.Some? ==> r.value.totalRows == |TransformSteps(extracted.value).value.rows| <= |extracted.value.rows|
    ensures r.Some? ==> r.value.totalColumns == |extracted.value.columns|
  {
    match extracted
    case Err(_) => None
    case Ok(raw) =>
      match TransformSteps(raw)
      case Err(_) => None
      case Ok(clean) => Some(QualityReportOf(clean))
  }

  /** The try block: extract's outcome is recorded, then transform, report and load run unless a phase raised. */
  method TryBlock(results: Results, extracted: Result<Table, string>, loadSucceeds: bool, verifiedCount: int)
    returns (report: Option<QualityReport>)
    requires extracted.Ok? ==> WellFormed(extracted.value)
    modifies results
    ensures results.Snapshot() == AfterTry(extracted, loadSucceeds, verifiedCount, old(results.Snapshot()))
    ensures report == ReportOf(extracted)
  {
    report := None;
    match extracted {
      case Err(message) =>
        results.error := Some(ExtractFailed(message));
      case Ok(raw) =>
        results.rowsExtracted := |raw.rows|;
        var transformed := TransformPhase(raw);
        if transformed.Ok? {
          report := Some(QualityReportOf(transformed.value));
        }
        RecordTransformAndLoad(results, transformed, loadSucceeds, verifiedCount);
    }
  }

  /**
   * `run_etl_pipeline(source_file)` given the outcome of `extract_csv`, of
   * `load_to_supabase` and of `verify_load`, and the two clock readings. The
   * quality report is returned when the transform succeeded.
   */
  method RunEtlPipeline(extracted: Result<Table, string>, loadSucceeds: bool, verifiedCount: int,
                        startClock: real, endClock: real)
    returns (results: Results, report: Option<QualityReport>)
    requires extracted.Ok? ==> WellFormed(extracted.value)
    ensures fresh(results)
    ensures results.Snapshot() == FinalRecord(extracted, loadSucceeds, verifiedCount, startClock, endClock)
    ensures report == ReportOf(extracted)
  {
    results := new Results(startClock);
    report := TryBlock(results, extracted, loadSucceeds, verifiedCount);
    results.RecordSummary(endClock);
  }

  // ---------------------------------------------------------------- properties of the final record

  /** Extract raises: failed, the error recorded, all three counts still zero. */
  lemma ExtractFails(message: string, loadSucceeds: bool, verifiedCount: int, startClock: real, endClock: real)
    ensures var r := FinalRecord(Err(message), loadSucceeds, verifiedCount, startClock, endClock);
      r.status == Failed && r.error == Some(ExtractFailed(message)) &&
      r.rowsExtracted == 0 && r.rowsTransformed == 0 && r.rowsLoaded == 0
  {
  }

  /** Transform raises: the extracted count is kept, the counts after it stay zero, the error is recorded. */
  lemma TransformFails(raw: Table, loadSucceeds: bool, verifiedCount: int, startClock: real, endClock: real)
    requires WellFormed(raw) && TransformSteps(raw).Err?
    ensures var r := FinalRecord(Ok(raw), loadSucceeds, verifiedCount, startClock, endClock);
      r.status == Failed && r.error == Some(TransformFailed(TransformSteps(raw).error)) &&
      r.rowsExtracted == |raw.rows| && r.rowsTransformed == 0 && r.rowsLoaded == 0
  {
  }

  /** Status is "success" exactly when extract and transform complete and load reports success. */
  lemma SuccessCondition(extracted: Result<Table, string>, loadSucceeds: bool, verifiedCount: int,
                         startClock: real, endClock: real)
    requires extracted.Ok? ==> WellFormed(extracted.value)
    ensures FinalRecord(extracted, loadSucceeds, verifiedCount, startClock, endClock).status == Success <==>
              extracted.Ok? && TransformSteps(extracted.value).Ok? && loadSucceeds
  {
  }

  /** Load returns false: still failed, nothing loaded, and no error entry. */
  lemma LoadReturnsFalse(raw: Table, verifiedCount: int, startClock: real, endClock: real)
    requires WellFormed(raw) && TransformSteps(raw).Ok?
    ensures var r := FinalRecord(Ok(raw), false, verifiedCount, startClock, endClock);
      r.status == Failed && r.rowsLoaded == 0 && r.error.None? &&
      r.rowsExtracted == |raw.rows| && r.rowsTransformed == |TransformSteps(raw).value.rows|
  {
  }

  /** Load returns true: verify's count is copied as it is, the -1 sentinel included, and the status is success. */
  lemma LoadReturnsTrue(raw: Table, verifiedCount: int, startClock: real, endClock: real)
    requires WellFormed(raw) && TransformSteps(raw).Ok?
    ensures var r := FinalRecord(Ok(raw), true, verifiedCount, startClock, endClock);
      r.status == Success && r.rowsLoaded == verifiedCount && r.error.None? &&
      r.rowsExtracted == |raw.rows| && r.rowsTransformed == |TransformSteps(raw).value.rows|
  {
  }

  /** Nothing is transformed that was not extracted: the transformed count never exceeds the extracted one. */
  lemma TransformedAtMostExtracted(extracted: Result<Table, string>, loadSucceeds: bool, verifiedCount: int,
                                   startClock: real, endClock: real)
    requires extracted.Ok? ==> WellFormed(extracted.value)
    ensures var r := FinalRecord(extracted, loadSucceeds, verifiedCount, startClock, endClock);
      0 <= r.rowsTransformed <= r.rowsExtracted
  {
  }

  /** An error entry is written exactly when a phase raised, and then the status is failed. */
  lemma ErrorIffRaised(extracted: Result<Table, string>, loadSucceeds: bool, verifiedCount: int,
                       startClock: real, endClock: real)
    requires extracted.Ok? ==> WellFormed(extracted.value)
    ensures var r := FinalRecord(extracted, loadSucceeds, verifiedCount, startClock, endClock);
      (r.error.Some? <==> extracted.Err? || TransformSteps(extracted.value).Err?) &&
      (r.error.Some? ==> r.status == Failed)
  {
  }

  /**
   * The report exists exactly when extract and transform complete; it is
   * computed on the transformed table, so its row count is `rows_transformed`.
   */
  lemma ReportMatchesTransform(extracted: Result<Table, string>, loadSucceeds: bool, verifiedCount: int,
                               startClock: real, endClock: real)
    requires extracted.Ok? ==> WellFormed(extracted.value)
    ensures ReportOf(extracted).Some? <==> extracted.Ok? && TransformSteps(extracted.value).Ok?
    ensures ReportOf(extracted).Some? ==>
              ReportOf(extracted).value.totalRows ==
                FinalRecord(extracted, loadSucceeds, verifiedCount, startClock, endClock).rowsTransformed &&
              ReportOf(extracted).value.totalColumns == |extracted.value.columns|
  {
  }
}
