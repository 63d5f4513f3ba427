/** `statistical_parity_check`, written once for the three scripts: fair.py and
    fair2.py raise on a table without sensitive groups, faircompas.py returns
    an empty map judged fair. */
module StatisticalParity {
  import opened Frames

  /** The largest spread between group proportions still judged fair. */
  const Threshold: real := 0.1

  /** How the check treats a table in which no sensitive group exists. */
  datatype Variant =
    | RaisesOnEmpty   // fair.py, fair2.py: max() over the empty dict values raises
    | EmptyIsFair     // faircompas.py: returns ({}, True)

  /** The pair the check returns: the proportion of each group and the verdict. */
  datatype Report = Report(proportions: map<Value, real>, fair: bool)

  /** Column `s` has no value at all: the table is empty or the column entirely missing. */
  predicate AllMissing(rows: seq<Row>, s: string) {
    forall r | r in rows :: Cell(r, s).Null?
  }

  /** The non-missing cells of column `c`, in row order. */
  function NonNullCells(rows: seq<Row>, c: string): (cells: seq<Value>)
    ensures forall x :: x in cells <==> !x.Null? && exists r | r in rows :: Cell(r, c) == x
  {
    if rows == [] then []
    else
      var rest := NonNullCells(rows[1..], c);
      assert forall r | r in rows :: r == rows[0] || r in rows[1..];
      assert forall r | r in rows[1..] :: r in rows;
      (if Cell(rows[0], c).Null? then [] else [Cell(rows[0], c)]) + rest
  }

  /** Every value that occurs in a row of column `s` selects at least that row. */
  lemma OccurringValuesAreCounted(rows: seq<Row>, s: string)
    ensures forall g: Value | !g.Null? && (exists r | r in rows :: Cell(r, s) == g) :: Count(rows, Eq(s, g)) > 0
  {
    forall g: Value | !g.Null? && (exists r | r in rows :: Cell(r, s) == g) ensures Count(rows, Eq(s, g)) > 0 {
      var r :| r in rows && Cell(r, s) == g;
      assert Holds(Eq(s, g), r);
      CountZeroIff(rows, Eq(s, g));
    }
  }

  /** The keys of `groupby(s)`: each non-missing value of column `s` once. */
  function Groups(rows: seq<Row>, s: string): (gs: seq<Value>)
    ensures forall g :: g in gs <==> !g.Null? && exists r | r in rows :: Cell(r, s) == g
    ensures forall g | g in gs :: Count(rows, Eq(s, g)) > 0
  {
    OccurringValuesAreCounted(rows, s);
    Unique(NonNullCells(rows, s))
  }

  /** The proportion of group `g`: rows of the group whose target equals `tv`,
      over all rows of the group; a group without such rows gets 0, as `fillna(0)` gives. */
  function Proportion(rows: seq<Row>, s: string, g: Value, tcol: string, tv: Value): (p: real)
    requires Count(rows, Eq(s, g)) > 0
    ensures 0.0 <= p <= 1.0
    ensures p == 0.0 <==> forall r | r in rows && Holds(Eq(s, g), r) :: !Holds(Eq(tcol, tv), r)
    ensures p == 1.0 <==> forall r | r in rows && Holds(Eq(s, g), r) :: Holds(Eq(tcol, tv), r)
  {
    RatioInUnitInterval(Count(rows, And(Eq(s, g), Eq(tcol, tv))), Count(rows, Eq(s, g)));
    CountAndAtMost(rows, Eq(s, g), Eq(tcol, tv));
    CountZeroIff(rows, And(Eq(s, g), Eq(tcol, tv)));
    CountAndFullIff(rows, Eq(s, g), Eq(tcol, tv));
    Count(rows, And(Eq(s, g), Eq(tcol, tv))) as real / Count(rows, Eq(s, g)) as real
  }

  /** The largest element. */
  function MaxOf(xs: seq<real>): (m: real)
    requires |xs| > 0
    ensures m in xs && forall i | 0 <= i < |xs| :: xs[i] <= m
  {
    if |xs| == 1 then xs[0]
    else
      var rest := MaxOf(xs[1..]);
      if xs[0] >= rest then xs[0] else rest
  }

  /** The smallest element. */
  function MinOf(xs: seq<real>): (m: real)
    requires |xs| > 0
    ensures m in xs && forall i | 0 <= i < |xs| :: m <= xs[i]
  {
    if |xs| == 1 then xs[0]
    else
      var rest := MinOf(xs[1..]);
      if xs[0] <= rest then xs[0] else rest
  }

  /** `max(values) - min(values)`: the largest difference between two of the values, so
      the spread is within a bound exactly when every pairwise difference is. */
  function Disparity(xs: seq<real>): (d: real)
    requires |xs| > 0
    ensures 0.0 <= d
    ensures forall i, j | 0 <= i < |xs| && 0 <= j < |xs| :: xs[i] - xs[j] <= d
    ensures exists i, j | 0 <= i < |xs| && 0 <= j < |xs| :: xs[i] - xs[j] == d
  {
    var hi, lo := MaxOf(xs), MinOf(xs);
    var i :| 0 <= i < |xs| && xs[i] == hi;
    var j :| 0 <= j < |xs| && xs[j] == lo;
    assert xs[i] - xs[j] == hi - lo;
    assert xs[0] <= hi && lo <= xs[0];
    hi - lo
  }

  /** The proportions of the groups `gs`, in that order: `disparities.values()`. */
  function ValuesOf(p: map<Value, real>, gs: seq<Value>): (xs: seq<real>)
    requires forall g | g in gs :: g in p
    ensures |xs| == |gs| && forall i | 0 <= i < |gs| :: xs[i] == p[gs[i]]
  {
    seq(|gs|, i requires 0 <= i < |gs| => p[gs[i]])
  }

  /** The spread is within a bound exactly when every pairwise difference is. */
  lemma DisparityWithin(xs: seq<real>, bound: real)
    requires |xs| > 0
    ensures Disparity(xs) <= bound <==> forall i, j | 0 <= i < |xs| && 0 <= j < |xs| :: xs[i] - xs[j] <= bound
  {
    var i, j :| 0 <= i < |xs| && 0 <= j < |xs| && xs[i] - xs[j] == Disparity(xs);
  }

  /** A pairwise bound on the listed values is a pairwise bound on the groups' proportions. */
  lemma ValuesPairwise(p: map<Value, real>, gs: seq<Value>, bound: real)
    requires forall g | g in gs :: g in p
    ensures (forall i, j | 0 <= i < |gs| && 0 <= j < |gs| :: ValuesOf(p, gs)[i] - ValuesOf(p, gs)[j] <= bound) <==>
            (forall g, h | g in gs && h in gs :: p[g] - p[h] <= bound)
  {
    var xs := ValuesOf(p, gs);
    if forall i, j | 0 <= i < |gs| && 0 <= j < |gs| :: xs[i] - xs[j] <= bound {
      forall g, h | g in gs && h in gs ensures p[g] - p[h] <= bound {
        var i :| 0 <= i < |gs| && gs[i] == g;
        var j :| 0 <= j < |gs| && gs[j] == h;
        assert xs[i] - xs[j] <= bound;
      }
    }
    if forall g, h | g in gs && h in gs :: p[g] - p[h] <= bound {
      forall i, j | 0 <= i < |gs| && 0 <= j < |gs| ensures xs[i] - xs[j] <= bound {
        assert gs[i] in gs && gs[j] in gs;
      }
    }
  }

  /** `max(disparities.values()) - min(disparities.values()) <= threshold`. The verdict
      does not depend on the order in which the groups are listed: it holds exactly when
      no two groups differ by more than the threshold. */
  function Verdict(p: map<Value, real>, gs: seq<Value>): (fair: bool)
    requires |gs| > 0 && forall g | g in gs :: g in p
    ensures fair <==> forall g, h | g in gs && h in gs :: p[g] - p[h] <= Threshold
  {
    DisparityWithin(ValuesOf(p, gs), Threshold);
    ValuesPairwise(p, gs, Threshold);
    Disparity(ValuesOf(p, gs)) <= Threshold
  }

  /** `statistical_parity_check(df, s, tcol, tv)`. */
  function StatisticalParityCheck(variant: Variant, t: Table, s: string, tcol: string, tv: Value): (r: Result<Report>)
    ensures tcol !in t.columns ==> r == Err(KeyError(tcol))
    ensures tcol in t.columns && s !in t.columns ==> r == Err(KeyError(s))
    ensures tcol in t.columns && s in t.columns && HasList(t.rows, s) ==> r == Err(TypeError)
    ensures tcol in t.columns && s in t.columns && !HasList(t.rows, s) && AllMissing(t.rows, s) ==>
              r == if variant == EmptyIsFair then Ok(Report(map[], true)) else Err(ValueError)
    ensures r.Ok? <==> tcol in t.columns && s in t.columns && !HasList(t.rows, s) &&
                       (variant == EmptyIsFair || !AllMissing(t.rows, s))
    ensures r.Ok? ==> forall g :: g in r.value.proportions <==> !g.Null? && exists row | row in t.rows :: Cell(row, s) == g
    ensures r.Ok? ==> forall g | g in r.value.proportions ::
              Count(t.rows, Eq(s, g)) > 0 && r.value.proportions[g] == Proportion(t.rows, s, g, tcol, tv)
    ensures r.Ok? ==> (r.value.fair <==> forall g, h | g in r.value.proportions && h in r.value.proportions ::
                                           r.value.proportions[g] - r.value.proportions[h] <= Threshold)
  {
    if tcol !in t.columns then Err(KeyError(tcol))
    else if s !in t.columns then Err(KeyError(s))
    else if HasList(t.rows, s) then Err(TypeError)
    else
      var gs := Groups(t.rows, s);
      var p := map g | g in gs :: Proportion(t.rows, s, g, tcol, tv);
      if gs == [] then
        assert AllMissing(t.rows, s) by {
          forall r | r in t.rows ensures Cell(r, s).Null? {
            assert !Cell(r, s).Null? ==> Cell(r, s) in gs;
          }
        }
        if variant == EmptyIsFair then Ok(Report(map[], true)) else Err(ValueError)
      else
        assert !AllMissing(t.rows, s) by {
          assert gs[0] in gs;
        }
        Ok(Report(p, Verdict(p, gs)))
  }

  /** Tables with the same rows, in whatever order and multiplicity, agree on which values occur. */
  lemma SameRowsSameColumnFacts(a: seq<Row>, b: seq<Row>, s: string)
    requires forall row :: row in a <==> row in b
    ensures HasList(a, s) == HasList(b, s)
    ensures AllMissing(a, s) == AllMissing(b, s)
  {
  }

  lemma SameEntriesSameMap(p: map<Value, real>, p': map<Value, real>)
    requires forall g :: g in p <==> g in p'
    requires forall g | g in p :: p[g] == p'[g]
    ensures p == p'
  {
  }

  lemma ProportionIgnoresRowOrder(a: seq<Row>, b: seq<Row>, s: string, g: Value, tcol: string, tv: Value)
    requires multiset(a) == multiset(b) && Count(a, Eq(s, g)) > 0
    ensures Count(b, Eq(s, g)) > 0 && Proportion(a, s, g, tcol, tv) == Proportion(b, s, g, tcol, tv)
  {
    CountPermutation(a, b, Eq(s, g));
    CountPermutation(a, b, And(Eq(s, g), Eq(tcol, tv)));
  }

  /** Reordering the rows changes neither the proportions nor the verdict. */
  lemma ParityIgnoresRowOrder(variant: Variant, t: Table, u: Table, s: string, tcol: string, tv: Value)
    requires t.columns == u.columns && multiset(t.rows) == multiset(u.rows)
    ensures StatisticalParityCheck(variant, t, s, tcol, tv) == StatisticalParityCheck(variant, u, s, tcol, tv)
  {
    forall row ensures row in t.rows <==> row in u.rows {
      assert row in t.rows <==> row in multiset(t.rows);
      assert row in u.rows <==> row in multiset(u.rows);
    }
    SameRowsSameColumnFacts(t.rows, u.rows, s);
    var r, q := StatisticalParityCheck(variant, t, s, tcol, tv), StatisticalParityCheck(variant, u, s, tcol, tv);
    if r.Ok? {
      var p, p' := r.value.proportions, q.value.proportions;
      forall g ensures g in p <==> g in p' {
        if g in p {
          var row :| row in t.rows && Cell(row, s) == g;
          assert row in u.rows;
        }
        if g in p' {
          var row :| row in u.rows && Cell(row, s) == g;
          assert row in t.rows;
        }
      }
      forall g | g in p ensures p[g] == p'[g] {
        ProportionIgnoresRowOrder(t.rows, u.rows, s, g, tcol, tv);
      }
      SameEntriesSameMap(p, p');
      assert r.value.fair == q.value.fair;
    }
  }

  /** A table whose sensitive column holds one value (besides missing ones) is always fair. */
  lemma SingleGroupIsFair(variant: Variant, t: Table, s: string, tcol: string, tv: Value)
    requires StatisticalParityCheck(variant, t, s, tcol, tv).Ok?
    requires forall r1, r2 | r1 in t.rows && r2 in t.rows && !Cell(r1, s).Null? && !Cell(r2, s).Null? ::
               Cell(r1, s) == Cell(r2, s)
    ensures StatisticalParityCheck(variant, t, s, tcol, tv).value.fair
  {
    var p := StatisticalParityCheck(variant, t, s, tcol, tv).value.proportions;
    forall g, h | g in p && h in p ensures p[g] - p[h] <= Threshold {
      var r1 :| r1 in t.rows && Cell(r1, s) == g;
      var r2 :| r2 in t.rows && Cell(r2, s) == h;
    }
  }

  /** Groups that all have the same proportion are fair. */
  lemma EqualProportionsAreFair(variant: Variant, t: Table, s: string, tcol: string, tv: Value)
    requires StatisticalParityCheck(variant, t, s, tcol, tv).Ok?
    requires var p := StatisticalParityCheck(variant, t, s, tcol, tv).value.proportions;
             forall g, h | g in p && h in p :: p[g] == p[h]
    ensures StatisticalParityCheck(variant, t, s, tcol, tv).value.fair
  {
  }
}
