/** `analyze_fairness` (fair.py, fair2.py, faircompas.py): the statistical parity
    check applied to each sensitive column in turn, as the sequence of what it reports. */
module Orchestrator {
  import opened Frames
  import opened StatisticalParity

  /** What one pass of the loop reports for a sensitive column. */
  datatype Outcome =
    | NotFound(column: string)                                          // the script reports that the column was not found
    | Analysed(column: string, proportions: map<Value, real>, fair: bool)  // the dict and the verdict
    | NoData(column: string)                                            // faircompas.py: empty dict, nothing shown

  /** One pass of the loop; an exception from the check ends the whole call. */
  function ColumnOutcome(variant: Variant, t: Table, c: string, tcol: string, tv: Value): (r: Result<Outcome>)
    ensures r.Ok? ==> r.value.column == c
    ensures c !in t.columns <==> r == Ok(NotFound(c))
    ensures c in t.columns ==> (r.Ok? <==> StatisticalParityCheck(variant, t, c, tcol, tv).Ok?)
    ensures c in t.columns && r.Err? ==> r.error == StatisticalParityCheck(variant, t, c, tcol, tv).error
    ensures r.Ok? && r.value.NoData? <==> variant == EmptyIsFair && r.Ok? && c in t.columns && AllMissing(t.rows, c)
    ensures r.Ok? && r.value.Analysed? ==>
              r.value.proportions != map[] &&
              Report(r.value.proportions, r.value.fair) == StatisticalParityCheck(variant, t, c, tcol, tv).value
  {
    if c !in t.columns then Ok(NotFound(c))
    else
      match StatisticalParityCheck(variant, t, c, tcol, tv)
      case Err(e) => Err(e)
      case Ok(report) =>
        if report.proportions == map[] then
          assert AllMissing(t.rows, c) by {
            forall row | row in t.rows ensures Cell(row, c).Null? {
              assert Cell(row, c) !in report.proportions;
            }
          }
          Ok(NoData(c))
        else
          assert !AllMissing(t.rows, c) by {
            var g :| g in report.proportions;
            var row :| row in t.rows && Cell(row, c) == g;
          }
          Ok(Analysed(c, report.proportions, report.fair))
  }

  /** `analyze_fairness(df, cols, tcol, tv)`: the outcomes in the order of `cols`, or the
      first exception raised. */
  function AnalyzeFairness(variant: Variant, t: Table, cols: seq<string>, tcol: string, tv: Value): (r: Result<seq<Outcome>>)
    ensures r.Ok? <==> forall i | 0 <= i < |cols| :: ColumnOutcome(variant, t, cols[i], tcol, tv).Ok?
    ensures r.Ok? ==>
              |r.value| == |cols| &&
              forall i | 0 <= i < |cols| :: r.value[i] == ColumnOutcome(variant, t, cols[i], tcol, tv).value
    ensures r.Err? ==> exists i | 0 <= i < |cols| ::
              ColumnOutcome(variant, t, cols[i], tcol, tv) == Err(r.error) &&
              forall j | 0 <= j < i :: ColumnOutcome(variant, t, cols[j], tcol, tv).Ok?
  {
    if cols == [] then Ok([])
    else
      match ColumnOutcome(variant, t, cols[0], tcol, tv)
      case Err(e) => Err(e)
      case Ok(o) =>
        match AnalyzeFairness(variant, t, cols[1..], tcol, tv)
        case Err(e) =>
          var i :| 0 <= i < |cols| - 1 &&
                   ColumnOutcome(variant, t, cols[1..][i], tcol, tv) == Err(e) &&
                   forall j | 0 <= j < i :: ColumnOutcome(variant, t, cols[1..][j], tcol, tv).Ok?;
          assert ColumnOutcome(variant, t, cols[i + 1], tcol, tv) == Err(e);
          Err(e)
        case Ok(os) => Ok([o] + os)
  }

  /** Analysing two lists of columns back to back is analysing their concatenation: a
      column's outcome never depends on the columns before it. */
  lemma {:induction false} AnalyzeConcatenation(variant: Variant, t: Table, a: seq<string>, b: seq<string>, tcol: string, tv: Value)
    ensures AnalyzeFairness(variant, t, a + b, tcol, tv) ==
              match AnalyzeFairness(variant, t, a, tcol, tv)
              case Err(e) => Err(e)
              case Ok(xs) =>
                match AnalyzeFairness(variant, t, b, tcol, tv)
                case Err(e) => Err(e)
                case Ok(ys) => Ok(xs + ys)
  {
    if a == [] {
      assert a + b == b;
      var rb := AnalyzeFairness(variant, t, b, tcol, tv);
      if rb.Ok? {
        assert [] + rb.value == rb.value;
      }
    } else {
      assert (a + b)[0] == a[0];
      assert (a + b)[1..] == a[1..] + b;
      AnalyzeConcatenation(variant, t, a[1..], b, tcol, tv);
      var head := ColumnOutcome(variant, t, a[0], tcol, tv);
      var tail, rb := AnalyzeFairness(variant, t, a[1..], tcol, tv), AnalyzeFairness(variant, t, b, tcol, tv);
      if head.Ok? && tail.Ok? && rb.Ok? {
        assert [head.value] + (tail.value + rb.value) == ([head.value] + tail.value) + rb.value;
      }
    }
  }

  /** A missing sensitive column yields only its "not found" outcome and the loop
      goes on with the next column. */
  lemma MissingColumnIsSkipped(variant: Variant, t: Table, c: string, rest: seq<string>, tcol: string, tv: Value)
    requires c !in t.columns
    ensures AnalyzeFairness(variant, t, [c] + rest, tcol, tv) ==
              match AnalyzeFairness(variant, t, rest, tcol, tv)
              case Err(e) => Err(e)
              case Ok(ys) => Ok([NotFound(c)] + ys)
  {
    assert ([c] + rest)[0] == c && ([c] + rest)[1..] == rest;
  }
}
