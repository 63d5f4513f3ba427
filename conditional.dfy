/** `conditional_statistical_parity` (fair2.py): the mean target of every
    (sensitive value, control value) pair, laid out as a matrix by `unstack()`. */
module ConditionalParity {
  import opened Frames

  /** The rows the mean of cell (a, b) averages: sensitive value a, control
      value b, and a number in the target column (`mean()` skips missing targets). */
  function CellFilter(s: string, a: Value, c: string, b: Value, tcol: string): Filter {
    And(Eq(s, a), And(Eq(c, b), Numeric(tcol)))
  }

  /** The total of the integer targets over the rows a mask selects. */
  function SumOf(rows: seq<Row>, f: Filter, tcol: string): int {
    if rows == [] then 0
    else (if Holds(f, rows[0]) && Cell(rows[0], tcol).Int? then Cell(rows[0], tcol).n else 0) + SumOf(rows[1..], f, tcol)
  }

  /** Some row of a group has a target that is neither a number nor missing. */
  predicate NonNumericTarget(rows: seq<Row>, s: string, c: string, tcol: string) {
    exists r | r in rows :: !Cell(r, s).Null? && !Cell(r, c).Null? && (Cell(r, tcol).Str? || Cell(r, tcol).List?)
  }

  /** The pairs whose mean is a number rather than NaN. */
  function CellKeys(rows: seq<Row>, s: string, c: string, tcol: string): set<(Value, Value)> {
    set r | r in rows && !Cell(r, s).Null? && !Cell(r, c).Null? && Cell(r, tcol).Int? :: (Cell(r, s), Cell(r, c))
  }

  lemma CellKeyCounted(rows: seq<Row>, s: string, c: string, tcol: string, k: (Value, Value))
    requires k in CellKeys(rows, s, c, tcol)
    ensures Count(rows, CellFilter(s, k.0, c, k.1, tcol)) > 0
  {
    var r :| r in rows && !Cell(r, s).Null? && !Cell(r, c).Null? && Cell(r, tcol).Int? && k == (Cell(r, s), Cell(r, c));
    assert Holds(Eq(s, k.0), r) && Holds(Eq(c, k.1), r) && Holds(Numeric(tcol), r);
    assert Holds(And(Eq(c, k.1), Numeric(tcol)), r);
    assert Holds(CellFilter(s, k.0, c, k.1, tcol), r);
    CountZeroIff(rows, CellFilter(s, k.0, c, k.1, tcol));
  }

  /** The mean of the numeric targets of pair k. */
  function MeanOf(rows: seq<Row>, s: string, c: string, tcol: string, k: (Value, Value)): real
    requires Count(rows, CellFilter(s, k.0, c, k.1, tcol)) > 0
  {
    SumOf(rows, CellFilter(s, k.0, c, k.1, tcol), tcol) as real / Count(rows, CellFilter(s, k.0, c, k.1, tcol)) as real
  }

  /** The mean target of each pair that has one: a pair has an entry exactly when some
      row carries it together with a numeric target (every other cell of `unstack()` is
      NaN), and the entry is the arithmetic mean of the pair's numeric targets. */
  function Matrix(rows: seq<Row>, s: string, c: string, tcol: string): (m: map<(Value, Value), real>)
    ensures forall a: Value, b: Value :: (a, b) in m <==>
              !a.Null? && !b.Null? && exists row | row in rows :: Cell(row, s) == a && Cell(row, c) == b && Cell(row, tcol).Int?
    ensures forall k | k in m ::
              Count(rows, CellFilter(s, k.0, c, k.1, tcol)) > 0 &&
              m[k] == SumOf(rows, CellFilter(s, k.0, c, k.1, tcol), tcol) as real / Count(rows, CellFilter(s, k.0, c, k.1, tcol)) as real
  {
    var m := map k | k in CellKeys(rows, s, c, tcol) :: (CellKeyCounted(rows, s, c, tcol, k); MeanOf(rows, s, c, tcol, k));
    assert forall a: Value, b: Value :: (a, b) in m <==>
        !a.Null? && !b.Null? && exists row | row in rows :: Cell(row, s) == a && Cell(row, c) == b && Cell(row, tcol).Int? by {
      forall a: Value, b: Value | !a.Null? && !b.Null? && exists row | row in rows :: Cell(row, s) == a && Cell(row, c) == b && Cell(row, tcol).Int?
        ensures (a, b) in m
      {
        var row :| row in rows && Cell(row, s) == a && Cell(row, c) == b && Cell(row, tcol).Int?;
        assert (Cell(row, s), Cell(row, c)) in CellKeys(rows, s, c, tcol);
      }
    }
    assert forall k | k in m :: Count(rows, CellFilter(s, k.0, c, k.1, tcol)) > 0 && m[k] == MeanOf(rows, s, c, tcol, k) by {
      forall k | k in m ensures Count(rows, CellFilter(s, k.0, c, k.1, tcol)) > 0 && m[k] == MeanOf(rows, s, c, tcol, k) {
        CellKeyCounted(rows, s, c, tcol, k);
      }
    }
    m
  }

  /** `conditional_statistical_parity(df, s, tcol, tv, c)`; `tv` is unused, as in the script. */
  function ConditionalStatisticalParity(t: Table, s: string, tcol: string, tv: Value, c: string): (r: Result<map<(Value, Value), real>>)
    ensures s !in t.columns ==> r == Err(KeyError(s))
    ensures s in t.columns && c !in t.columns ==> r == Err(KeyError(c))
    ensures s in t.columns && c in t.columns && tcol !in t.columns ==> r == Err(KeyError(tcol))
    ensures s in t.columns && c in t.columns && tcol in t.columns ==>
              (HasList(t.rows, s) || HasList(t.rows, c) || NonNumericTarget(t.rows, s, c, tcol) <==> r == Err(TypeError))
    ensures r.Ok? <==> s in t.columns && c in t.columns && tcol in t.columns &&
                       !HasList(t.rows, s) && !HasList(t.rows, c) && !NonNumericTarget(t.rows, s, c, tcol)
    ensures r.Ok? ==> forall a, b :: (a, b) in r.value <==>
              !a.Null? && !b.Null? && exists row | row in t.rows :: Cell(row, s) == a && Cell(row, c) == b && Cell(row, tcol).Int?
    ensures r.Ok? ==> forall k | k in r.value ::
              Count(t.rows, CellFilter(s, k.0, c, k.1, tcol)) > 0 &&
              r.value[k] == SumOf(t.rows, CellFilter(s, k.0, c, k.1, tcol), tcol) as real
                            / Count(t.rows, CellFilter(s, k.0, c, k.1, tcol)) as real
  {
    if s !in t.columns then Err(KeyError(s))
    else if c !in t.columns then Err(KeyError(c))
    else if tcol !in t.columns then Err(KeyError(tcol))
    else if HasList(t.rows, s) || HasList(t.rows, c) || NonNumericTarget(t.rows, s, c, tcol) then Err(TypeError)
    else
      Ok(Matrix(t.rows, s, c, tcol))
  }

  /** With 0/1 targets, the sum over a group counts its rows whose target is 1. */
  lemma {:induction false} SumOfBinaryTargets(rows: seq<Row>, f: Filter, tcol: string)
    requires forall r | r in rows && Holds(f, r) && Cell(r, tcol).Int? :: Cell(r, tcol) == Int(0) || Cell(r, tcol) == Int(1)
    ensures SumOf(rows, f, tcol) == Count(rows, And(f, Eq(tcol, Int(1))))
  {
    if rows != [] {
      assert forall r | r in rows[1..] :: r in rows;
      SumOfBinaryTargets(rows[1..], f, tcol);
      var r := rows[0];
      assert r in rows;
      assert Holds(And(f, Eq(tcol, Int(1))), r) <==> Holds(f, r) && Cell(r, tcol) == Int(1);
    }
  }

  /** The rows a pair's mean averages are rows of that pair. */
  lemma BinaryTargetsOfPair(rows: seq<Row>, s: string, a: Value, c: string, b: Value, tcol: string)
    requires forall r | r in rows && Cell(r, s) == a && Cell(r, c) == b && Cell(r, tcol).Int? ::
               Cell(r, tcol) == Int(0) || Cell(r, tcol) == Int(1)
    ensures forall r | r in rows && Holds(CellFilter(s, a, c, b, tcol), r) && Cell(r, tcol).Int? ::
              Cell(r, tcol) == Int(0) || Cell(r, tcol) == Int(1)
  {
    forall r | r in rows && Holds(CellFilter(s, a, c, b, tcol), r) && Cell(r, tcol).Int?
      ensures Cell(r, tcol) == Int(0) || Cell(r, tcol) == Int(1)
    {
      assert Holds(Eq(s, a), r) && Holds(And(Eq(c, b), Numeric(tcol)), r);
      assert Holds(Eq(c, b), r);
      assert Cell(r, s) == a && Cell(r, c) == b;
    }
  }

  /** When the targets of a pair are 0 or 1, its mean is the rate of 1s, so it lies in [0, 1]. */
  lemma MeanIsRateOfOnes(t: Table, s: string, tcol: string, tv: Value, c: string, a: Value, b: Value)
    requires ConditionalStatisticalParity(t, s, tcol, tv, c).Ok?
    requires (a, b) in ConditionalStatisticalParity(t, s, tcol, tv, c).value
    requires forall r | r in t.rows && Cell(r, s) == a && Cell(r, c) == b && Cell(r, tcol).Int? ::
               Cell(r, tcol) == Int(0) || Cell(r, tcol) == Int(1)
    ensures Count(t.rows, CellFilter(s, a, c, b, tcol)) > 0
    ensures ConditionalStatisticalParity(t, s, tcol, tv, c).value[(a, b)] ==
              Count(t.rows, And(CellFilter(s, a, c, b, tcol), Eq(tcol, Int(1)))) as real / Count(t.rows, CellFilter(s, a, c, b, tcol)) as real
    ensures 0.0 <= ConditionalStatisticalParity(t, s, tcol, tv, c).value[(a, b)] <= 1.0
  {
    var f := CellFilter(s, a, c, b, tcol);
    BinaryTargetsOfPair(t.rows, s, a, c, b, tcol);
    SumOfBinaryTargets(t.rows, f, tcol);
    CountAndAtMost(t.rows, f, Eq(tcol, Int(1)));
    RatioInUnitInterval(Count(t.rows, And(f, Eq(tcol, Int(1)))), Count(t.rows, f));
  }
}
