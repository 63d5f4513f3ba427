# Fairness metrics over a table, in Dafny

This project models the fairness-metric logic of three Python scripts: `fair.py`,
`fair2.py` and `faircompas.py`. Each script loads a dataset into a pandas DataFrame
and then asks whether a target outcome is spread evenly across the groups of a
sensitive column. Every step is counting, dividing or comparing. The model states
those steps over a table of rows and proves what they compute.

- `frames.dfy` (`Frames`): cells, rows and tables.
  - A cell is an integer, a string, a missing value (None/NaN) or a Python list.
  - Boolean masks are built from `==`, "is a number" and `&`. Counting with a mask is
    `df[mask].shape[0]` or a group's `size()`.
  - `unique()` gives values in order of first appearance.
  - The exceptions the scripts can raise: KeyError, TypeError, ValueError and
    ZeroDivisionError.
- `parity.dfy` (`StatisticalParity`): `statistical_parity_check`.
  - It is written once, with a `Variant` for its one difference between the scripts.
    `fair.py` and `fair2.py` call `max()` on an empty dict and raise. `faircompas.py`
    returns `({}, True)`.
  - The proportion of each group is (#rows of the group whose target equals the target
    value) / (#rows of the group), with 0 when no row matches (`fillna(0)`).
  - The verdict is `max − min <= 0.1`.
- `conditional.dfy` (`ConditionalParity`): `conditional_statistical_parity`, the mean
  target of every (sensitive value, control value) pair.
- `performance.dfy` (`PerformanceParity`): `evaluate_model_performance`.
  - It is an imperative loop over the distinct sensitive values.
  - It computes each group's true-positive rate and false-positive rate with Python's
    `/` on two ints: true division, which raises ZeroDivisionError on 0.
- `preprocess.dfy` (`Preprocess`): `preprocess_target_column`.
  - A `DataFrame` class whose method overwrites the target column in place.
  - The pure function `Normalized` gives the column it leaves behind.
- `orchestrator.dfy` (`Orchestrator`): `analyze_fairness`, as the sequence of per-column
  outcomes it reports, in the order of the sensitive columns.

Proportions, rates and means are exact `real` numbers.

Behaviour of the scripts that the model keeps:
- **Scalar cells in preprocessing.** fair2.py:59 (and fair.py:38) rewrites every target
  cell once any cell is a list, so a plain scalar cell becomes None.
- **Zero denominators.** fair2.py:48-49 divide two int counts with `/`. A group without
  rows labelled 1, or without rows labelled 0, raises ZeroDivisionError.
- **Missing sensitive values.** `unique()` at fair2.py:46 includes a missing value, but
  `==` at fair2.py:47 selects no row for it, so its TPR division raises.
- **No groups.** fair2.py:26 (and fair.py:26) call `max()` on an empty dict's values
  when the sensitive column has no value, which raises ValueError. faircompas.py:74-76
  returns `({}, True)` instead.
- **Labels.** fair2.py:48-49 compare the target and prediction with 0 and 1 only. A row
  whose value is neither is not counted, and nothing raises for it.
- **Orchestrator errors.** fair2.py:95 tests only whether the sensitive column exists
  before calling the check. A missing target column raises KeyError from the check at
  fair2.py:20, which ends the whole call.

## Model

| member | source | states |
|---|---|---|
| Frames.Holds | fair2.py:20 | a mask selects a row by `==`, "is a number" and `&`; `==` against a missing value never selects a row (also fair2.py:47-49) |
| Frames.Count | fair2.py:20-22 | a mask never selects more rows than the table has |
| Frames.CountAppend | fair2.py:20-22 | the count over two blocks of rows is the sum of their counts |
| Frames.CountPermutation | fair2.py:19-23 | two row sequences with the same multiset give the same count under every mask, so counts ignore row order |
| Frames.CountAndAtMost | fair2.py:20-22 | narrowing a group's mask by the target comparison never selects more rows, so numerator <= denominator |
| Frames.CountZeroIff | fair2.py:23 | a count is 0 exactly when no row satisfies the mask, which is the case `fillna(0)` covers |
| Frames.CountAndFullIff | fair2.py:19-22 | the narrowed count equals the group count exactly when every row of the group satisfies the narrowing |
| Frames.Unique | fair2.py:46 | `unique()`: the same values as the column, each once, ordered by first appearance |
| StatisticalParity.OccurringValuesAreCounted | fair2.py:21-22 | every non-missing sensitive value that occurs has a non-empty group |
| StatisticalParity.Groups | fair2.py:21-22 | the groups are exactly the non-missing sensitive values that occur, each with at least one row; rows with a missing value are in no group |
| StatisticalParity.Proportion | fair2.py:19-23 | a group's proportion lies in [0, 1]; it is 0 iff no row of the group has the target value and 1 iff all rows do |
| StatisticalParity.MaxOf | fair2.py:26 | `max()` of the proportions is one of them and bounds all of them from above |
| StatisticalParity.MinOf | fair2.py:26 | `min()` of the proportions is one of them and bounds all of them from below |
| StatisticalParity.Disparity | fair2.py:26 | max − min is non-negative, bounds every difference between two of the values and equals one of them |
| StatisticalParity.DisparityWithin | fair2.py:26-28 | max − min is within a bound iff every pairwise difference is |
| StatisticalParity.ValuesPairwise | fair2.py:25-26 | a pairwise bound on `disparities.values()` is the same bound on every two groups' proportions |
| StatisticalParity.Verdict | fair2.py:26-28 | the verdict `max − min <= 0.1` holds iff every two groups' proportions differ by at most 0.1, whatever the order of the groups |
| StatisticalParity.StatisticalParityCheck | faircompas.py:53-82 | KeyError for a missing target or sensitive column; TypeError for a list among the sensitive values; when no group exists, ValueError in the variant of fair.py:5-30 and fair2.py:5-30 and an empty map judged fair in the faircompas.py variant; otherwise one key per occurring non-missing value, the count ratio as its proportion, and the verdict iff all proportions lie within 0.1 of each other |
| StatisticalParity.ProportionIgnoresRowOrder | fair2.py:19-23 | a group's proportion is the same for any reordering of the rows |
| StatisticalParity.ParityIgnoresRowOrder | faircompas.py:67-80 | tables with the same columns and the same multiset of rows give the same result: the same error or the same map and verdict |
| StatisticalParity.SingleGroupIsFair | fair2.py:26-28 | a table whose non-missing sensitive values are all equal is judged fair |
| StatisticalParity.EqualProportionsAreFair | faircompas.py:78-80 | when all proportions are equal the verdict is fair |
| ConditionalParity.CellKeyCounted | fair2.py:37 | a pair that carries a numeric target has rows to average over |
| ConditionalParity.Matrix | fair2.py:37 | a (sensitive, control) pair has an entry iff some row carries both values, neither missing, with a numeric target; each entry is the sum of the pair's numeric targets divided by their number |
| ConditionalParity.ConditionalStatisticalParity | fair2.py:32-39 | KeyError for each missing column in the order the groupby reads them; TypeError iff a grouping cell is a list or a grouped target is not a number; otherwise the matrix of pair means |
| ConditionalParity.SumOfBinaryTargets | fair2.py:37 | with 0/1 targets, the sum over a group is the number of its rows whose target is 1 |
| ConditionalParity.MeanIsRateOfOnes | fair2.py:37 | with 0/1 targets each entry is the rate of 1s in its pair, which lies in [0, 1] |
| PerformanceParity.PositiveRate | fair2.py:48-49 | a TPR or FPR lies in [0, 1] and is 1 iff every row of the group with that ground truth is predicted 1 |
| PerformanceParity.RatesOfGroup | fair2.py:47-50 | one loop pass: ZeroDivisionError iff the group has no row labelled 1 or none labelled 0, else the group's TPR and FPR |
| PerformanceParity.MissingSensitiveValueHasNoRates | fair2.py:46-48 | the missing value's group selects no row, so a table with a missing sensitive value raises |
| PerformanceParity.EvaluateModelPerformance | fair2.py:41-51 | KeyError for a missing sensitive, target or prediction column; TypeError for a list among the sensitive values; success iff every distinct value has rows labelled 1 and 0; then one entry per distinct value in order of first appearance, holding its TPR and FPR |
| Preprocess.Normalized | fair2.py:58-59 | when any target cell is a list, each target cell becomes its first element or None, scalars included; otherwise nothing changes; every other cell, the row count and each row's columns are unchanged |
| Preprocess.NormalizedIsRectangular | fair.py:38 | the rewritten table still has the same columns in every row |
| Preprocess.NoListRemains | fair.py:37-38 | unless a list's first element is itself a list, no list remains in the column afterwards |
| Preprocess.NormalizedIdempotent | fair.py:37-38 | under the same condition, preprocessing twice equals preprocessing once |
| Preprocess.ScalarBecomesNone | fair.py:38 | cells [1], [] and 1 become 1, None and None |
| Preprocess.DataFrame.constructor | fair2.py:53 | the DataFrame holds the given table |
| Preprocess.DataFrame.PreprocessTargetColumn | fair2.py:53-60 | KeyError and no change for an unknown column; otherwise the rows become the rewritten rows in place, unchanged when no cell is a list, with the same columns and length |
| Orchestrator.ColumnOutcome | faircompas.py:108-116 | a missing column gives "not found"; otherwise the check's error or its result; the map and verdict are reported only when the map is non-empty, and an empty map (faircompas.py only) reports nothing |
| Orchestrator.AnalyzeFairness | fair2.py:84-102 | one outcome per sensitive column in input order, or the exception of the first column that raises; the same loop is fair.py:48-65 and faircompas.py:97-116 |
| Orchestrator.AnalyzeConcatenation | fair2.py:94-102 | analysing a + b is analysing a, then b: a column's outcome does not depend on earlier columns |
| Orchestrator.MissingColumnIsSkipped | fair.py:58-65 | a missing sensitive column adds only its "not found" outcome and the remaining columns are still analysed |

## Left out

- Dataset loading (`load_dataset`, `pd.read_csv`, `dropna`, the aif360 wrapping in `load_compas_dataset`), the `input()` prompts, the `__main__` blocks: these are I/O and foreign libraries. The table, column names and target value are parameters.
- All `print` output, `explore_dataset` and `plot_disparities`. These are console and matplotlib side effects. `Orchestrator.Outcome` records what each loop pass would print.
- IEEE floating point: proportions, means and rates are exact reals, so rounding at the 0.1 boundary is not modelled.
- pandas dtype coercion. Cells compare with exact equality on `Value`, so `1`, `1.0`, `True` and `"1"` are different values. Floats and booleans are not cells of the model.
- StatisticalParity.StatisticalParityCheck: the result map has no order. pandas sorts groupby keys when it builds the dict, which changes neither `max`/`min` nor the verdict.
- PerformanceParity.EvaluateModelPerformance: the `metrics` dict is returned as a sequence of (group, TPR, FPR) entries in insertion order. Its groups are distinct, so it denotes the same dict.
- ConditionalParity.ConditionalStatisticalParity: the `target_value` parameter is accepted and unused, as in the script. The matrix is a map from pairs, not the rectangular `unstack()` frame with NaN fill, and NaN entries are absent keys.
- StatisticalParity.StatisticalParityCheck: a target value that is a Python list is not modelled. pandas compares a Series with a list element by element by position, while the model compares each cell with the whole value. The scripts pass a string from `input()` (fair.py:89, fair2.py:126) or an int parsed from `input()` (faircompas.py:137).
- Orchestrator.AnalyzeFairness: it is a recursive function over the columns rather than a loop. The loop in the scripts updates no variable, and an exception ends it, which is what the `Err` result records.
