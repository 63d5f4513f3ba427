/** `evaluate_model_performance` (fair2.py): the true-positive and false-positive
    rate of a model's predictions within each group of a sensitive column. */
module PerformanceParity {
  import opened Frames

  /** One entry of the `metrics` dict: a group and its {"TPR", "FPR"} pair. */
  datatype GroupRates = GroupRates(group: Value, tpr: real, fpr: real)

  /** Rows of group `g` whose ground truth is `truth`. */
  function LabelFilter(s: string, g: Value, tcol: string, truth: int): Filter {
    And(Eq(s, g), Eq(tcol, Int(truth)))
  }

  /** Rows of group `g` whose ground truth is `truth` and whose prediction is 1. */
  function PredictedPositiveFilter(s: string, g: Value, tcol: string, truth: int, pcol: string): Filter {
    And(LabelFilter(s, g, tcol, truth), Eq(pcol, Int(1)))
  }

  /** The share of the group's rows labelled `truth` that the model predicts as 1:
      the TPR for truth 1, the FPR for truth 0. */
  function PositiveRate(rows: seq<Row>, s: string, g: Value, tcol: string, truth: int, pcol: string): (rate: real)
    requires Count(rows, LabelFilter(s, g, tcol, truth)) > 0
    ensures 0.0 <= rate <= 1.0
    ensures rate == 1.0 <==> forall r | r in rows && Holds(LabelFilter(s, g, tcol, truth), r) :: Holds(Eq(pcol, Int(1)), r)
  {
    CountAndAtMost(rows, LabelFilter(s, g, tcol, truth), Eq(pcol, Int(1)));
    CountAndFullIff(rows, LabelFilter(s, g, tcol, truth), Eq(pcol, Int(1)));
    RatioInUnitInterval(Count(rows, PredictedPositiveFilter(s, g, tcol, truth, pcol)), Count(rows, LabelFilter(s, g, tcol, truth)));
    Count(rows, PredictedPositiveFilter(s, g, tcol, truth, pcol)) as real / Count(rows, LabelFilter(s, g, tcol, truth)) as real
  }

  /** Both rates of group `g` exist: it has rows labelled 1 and rows labelled 0. */
  predicate RatesDefined(rows: seq<Row>, s: string, g: Value, tcol: string) {
    Count(rows, LabelFilter(s, g, tcol, 1)) > 0 && Count(rows, LabelFilter(s, g, tcol, 0)) > 0
  }

  /** One pass of the loop: the group's TPR, then its FPR, each an int division that
      raises when the group has no row with that ground truth. */
  method RatesOfGroup(rows: seq<Row>, s: string, g: Value, tcol: string, pcol: string) returns (r: Result<GroupRates>)
    ensures r.Ok? <==> RatesDefined(rows, s, g, tcol)
    ensures r.Err? ==> r.error == ZeroDivisionError
    ensures r.Ok? ==> r.value == GroupRates(g, PositiveRate(rows, s, g, tcol, 1, pcol), PositiveRate(rows, s, g, tcol, 0, pcol))
  {
    var positives := Count(rows, LabelFilter(s, g, tcol, 1));
    if positives == 0 {
      return Err(ZeroDivisionError);
    }
    var tpr := Count(rows, PredictedPositiveFilter(s, g, tcol, 1, pcol)) as real / positives as real;
    var negatives := Count(rows, LabelFilter(s, g, tcol, 0));
    if negatives == 0 {
      return Err(ZeroDivisionError);
    }
    var fpr := Count(rows, PredictedPositiveFilter(s, g, tcol, 0, pcol)) as real / negatives as real;
    return Ok(GroupRates(g, tpr, fpr));
  }

  /** A missing sensitive value is one of `unique()`'s values, but `==` never selects its
      rows, so its TPR divides by zero. */
  lemma {:induction false} MissingSensitiveValueHasNoRates(rows: seq<Row>, s: string, tcol: string)
    ensures !RatesDefined(rows, s, Null, tcol)
    ensures (exists r | r in rows :: Cell(r, s).Null?) ==> exists g | g in Column(rows, s) :: !RatesDefined(rows, s, g, tcol)
  {
    CountZeroIff(rows, LabelFilter(s, Null, tcol, 1));
    if exists r | r in rows :: Cell(r, s).Null? {
      var r :| r in rows && Cell(r, s).Null?;
      var i :| 0 <= i < |rows| && rows[i] == r;
      assert Column(rows, s)[i] == Null;
    }
  }

  /** `evaluate_model_performance(df, s, tcol, pcol)`: for each value of `df[s].unique()`,
      in order of first appearance, TPR and FPR by int division, which raises on a zero
      denominator. */
  method EvaluateModelPerformance(t: Table, s: string, tcol: string, pcol: string) returns (r: Result<seq<GroupRates>>)
    ensures s !in t.columns ==> r == Err(KeyError(s))
    ensures s in t.columns && HasList(t.rows, s) ==> r == Err(TypeError)
    ensures s in t.columns && !HasList(t.rows, s) && t.rows != [] && tcol !in t.columns ==> r == Err(KeyError(tcol))
    ensures s in t.columns && !HasList(t.rows, s) && t.rows != [] && tcol in t.columns && pcol !in t.columns ==>
              r == Err(KeyError(pcol))
    ensures r.Ok? <==>
              s in t.columns && !HasList(t.rows, s) &&
              (t.rows == [] ||
               (tcol in t.columns && pcol in t.columns &&
                forall g | g in Column(t.rows, s) :: RatesDefined(t.rows, s, g, tcol)))
    ensures r.Err? && s in t.columns && !HasList(t.rows, s) && tcol in t.columns && pcol in t.columns ==>
              r == Err(ZeroDivisionError)
    ensures r.Ok? ==> |r.value| == |Unique(Column(t.rows, s))|
    ensures r.Ok? ==> forall i | 0 <= i < |r.value| ::
              var g := Unique(Column(t.rows, s))[i];
              RatesDefined(t.rows, s, g, tcol) &&
              r.value[i] == GroupRates(g, PositiveRate(t.rows, s, g, tcol, 1, pcol), PositiveRate(t.rows, s, g, tcol, 0, pcol))
  {
    if s !in t.columns {
      return Err(KeyError(s));
    }
    if HasList(t.rows, s) {
      return Err(TypeError);
    }
    var groups := Unique(Column(t.rows, s));
    assert t.rows != [] ==> Column(t.rows, s)[0] in groups;
    var metrics: seq<GroupRates> := [];
    var i := 0;
    while i < |groups|
      invariant 0 <= i <= |groups|
      invariant i > 0 ==> tcol in t.columns && pcol in t.columns
      invariant |metrics| == i
      invariant forall k | 0 <= k < i ::
                  RatesDefined(t.rows, s, groups[k], tcol) &&
                  metrics[k] == GroupRates(groups[k], PositiveRate(t.rows, s, groups[k], tcol, 1, pcol),
                                                      PositiveRate(t.rows, s, groups[k], tcol, 0, pcol))
    {
      var g := groups[i];
      if tcol !in t.columns {
        return Err(KeyError(tcol));
      }
      if pcol !in t.columns {
        return Err(KeyError(pcol));
      }
      var rates := RatesOfGroup(t.rows, s, g, tcol, pcol);
      if rates.Err? {
        assert g in Column(t.rows, s);
        return Err(rates.error);
      }
      metrics := metrics + [rates.value];
      i := i + 1;
    }
    forall g | g in Column(t.rows, s) ensures RatesDefined(t.rows, s, g, tcol) {
      var k :| 0 <= k < |groups| && groups[k] == g;
    }
    return Ok(metrics);
  }
}
