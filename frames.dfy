/** Cells, rows and tables: the part of a pandas DataFrame that the fairness
    metrics read, together with the counting that every metric is built from. */
module Frames {

  /** A cell: an integer, a string, a missing value (None or NaN) or a Python list. */
  datatype Value = Int(n: int) | Str(s: string) | Null | List(items: seq<Value>)

  /** A row maps each column name to its cell. */
  type Row = map<string, Value>

  /** A table before its shape is checked: ordered column names and ordered rows. */
  datatype Frame = Frame(columns: seq<string>, rows: seq<Row>)

  /** Every row holds exactly the table's columns. */
  predicate Rectangular(f: Frame) {
    forall i | 0 <= i < |f.rows| :: f.rows[i].Keys == (set c | c in f.columns)
  }

  /** A DataFrame: all rows share the same column set. */
  type Table = f: Frame | Rectangular(f) witness Frame([], [])

  /** The exceptions the scripts can raise. */
  datatype Error =
    | KeyError(column: string)   // a column that is not in the table
    | TypeError                  // an unhashable list used as a group key, or a mean over non-numbers
    | ValueError                 // max() or min() of an empty sequence
    | ZeroDivisionError          // an int division by zero

  datatype Result<T> = Ok(value: T) | Err(error: Error)

  /** The cell of column `c`; a column the row lacks reads as missing. */
  function Cell(r: Row, c: string): Value {
    if c in r then r[c] else Null
  }

  /** Column `c` as a series, in row order. */
  function Column(rows: seq<Row>, c: string): seq<Value> {
    seq(|rows|, i requires 0 <= i < |rows| => Cell(rows[i], c))
  }

  /** Some cell of column `c` holds a list. */
  predicate HasList(rows: seq<Row>, c: string) {
    exists r | r in rows :: Cell(r, c).List?
  }

  /** A row predicate built from the comparisons the scripts use as boolean masks. */
  datatype Filter =
    | Eq(column: string, value: Value)   // df[column] == value
    | Numeric(column: string)            // the cell holds a number (not missing)
    | And(left: Filter, right: Filter)   // mask & mask

  /** Whether a mask selects row `r`. pandas `==` against a missing value is never
      true, and a missing cell is not a number. */
  predicate Holds(f: Filter, r: Row): (b: bool)
    ensures f.Eq? && f.value.Null? ==> !b
    ensures f.Numeric? && b ==> !Cell(r, f.column).Null?
  {
    match f
    case Eq(c, v) => !v.Null? && Cell(r, c) == v
    case Numeric(c) => Cell(r, c).Int?
    case And(f1, f2) => Holds(f1, r) && Holds(f2, r)
  }

  /** The number of rows a mask selects: `df[mask].shape[0]`, or a group's `size()`. */
  function Count(rows: seq<Row>, f: Filter): (n: nat)
    ensures n <= |rows|
  {
    if rows == [] then 0 else (if Holds(f, rows[0]) then 1 else 0) + Count(rows[1..], f)
  }

  lemma {:induction false} CountAppend(a: seq<Row>, b: seq<Row>, f: Filter)
    ensures Count(a + b, f) == Count(a, f) + Count(b, f)
  {
    if a == [] {
      assert a + b == b;
    } else {
      assert (a + b)[1..] == a[1..] + b;
      CountAppend(a[1..], b, f);
    }
  }

  /** Taking one row out of a sequence takes it out of the count. */
  lemma CountWithout(b: seq<Row>, k: int, f: Filter)
    requires 0 <= k < |b|
    ensures Count(b, f) == (if Holds(f, b[k]) then 1 else 0) + Count(b[..k] + b[k + 1..], f)
    ensures multiset(b[..k] + b[k + 1..]) == multiset(b) - multiset{b[k]}
  {
    assert b == b[..k] + [b[k]] + b[k + 1..];
    CountAppend(b[..k] + [b[k]], b[k + 1..], f);
    CountAppend(b[..k], [b[k]], f);
    CountAppend(b[..k], b[k + 1..], f);
  }

  /** Counting depends on the multiset of rows only, never on their order. */
  lemma {:induction false} CountPermutation(a: seq<Row>, b: seq<Row>, f: Filter)
    requires multiset(a) == multiset(b)
    ensures Count(a, f) == Count(b, f)
  {
    if a == [] {
      assert |b| == |multiset(b)| == 0;
    } else {
      var x := a[0];
      assert x in multiset(b);
      var k :| 0 <= k < |b| && b[k] == x;
      CountWithout(b, k, f);
      assert a == [x] + a[1..];
      assert multiset(a[1..]) == multiset(a) - multiset{x};
      CountPermutation(a[1..], b[..k] + b[k + 1..], f);
    }
  }

  /** Narrowing a mask never selects more rows. */
  lemma {:induction false} CountAndAtMost(rows: seq<Row>, f: Filter, g: Filter)
    ensures Count(rows, And(f, g)) <= Count(rows, f)
  {
    if rows != [] {
      CountAndAtMost(rows[1..], f, g);
    }
  }

  /** A mask selects no row exactly when it holds of no row. */
  lemma {:induction false} CountZeroIff(rows: seq<Row>, f: Filter)
    ensures Count(rows, f) == 0 <==> forall r | r in rows :: !Holds(f, r)
  {
    if rows != [] {
      CountZeroIff(rows[1..], f);
      if Count(rows, f) == 0 {
        forall r | r in rows ensures !Holds(f, r) {
          if r != rows[0] {
            assert r in rows[1..];
          }
        }
      } else if Holds(f, rows[0]) {
        assert rows[0] in rows;
      } else {
        var r :| r in rows[1..] && Holds(f, r);
        assert r in rows;
      }
    }
  }

  /** Narrowing a mask keeps every row exactly when the narrowing holds wherever the mask does. */
  lemma {:induction false} CountAndFullIff(rows: seq<Row>, f: Filter, g: Filter)
    ensures Count(rows, And(f, g)) == Count(rows, f) <==> forall r | r in rows && Holds(f, r) :: Holds(g, r)
  {
    if rows != [] {
      CountAndFullIff(rows[1..], f, g);
      CountAndAtMost(rows[1..], f, g);
      if Count(rows, And(f, g)) == Count(rows, f) {
        forall r | r in rows && Holds(f, r) ensures Holds(g, r) {
          if r != rows[0] {
            assert r in rows[1..];
          }
        }
      } else if Holds(f, rows[0]) && !Holds(g, rows[0]) {
        assert rows[0] in rows;
      } else {
        var r :| r in rows[1..] && Holds(f, r) && !Holds(g, r);
        assert r in rows;
      }
    }
  }

  /** A part over a non-empty whole lies in [0, 1], and is 0 or 1 only at the extremes. */
  lemma RatioInUnitInterval(n: nat, d: nat)
    requires 0 < d
    ensures n <= d ==> 0.0 <= n as real / d as real <= 1.0
    ensures n as real / d as real == 0.0 <==> n == 0
    ensures n as real / d as real == 1.0 <==> n == d
  {
    var q := n as real / d as real;
    assert q * d as real == n as real;
  }

  /** The position of the first occurrence of `x`. */
  function FirstIndex(xs: seq<Value>, x: Value): (k: nat)
    requires x in xs
    ensures k < |xs| && xs[k] == x
    ensures forall j | 0 <= j < k :: xs[j] != x
  {
    if xs[0] == x then 0 else 1 + FirstIndex(xs[1..], x)
  }

  /** `Series.unique()`: each distinct value once, in order of first appearance. */
  function Unique(xs: seq<Value>): (u: seq<Value>)
    ensures forall x :: x in u <==> x in xs
    ensures forall i, j | 0 <= i < j < |u| :: u[i] != u[j]
    ensures forall i, j | 0 <= i < j < |u| :: FirstIndex(xs, u[i]) < FirstIndex(xs, u[j])
  {
    if xs == [] then []
    else
      var init, last := xs[..|xs| - 1], xs[|xs| - 1];
      var p := Unique(init);
      assert xs == init + [last];
      assert forall x | x in init :: FirstIndex(xs, x) == FirstIndex(init, x) by {
        forall x | x in init ensures FirstIndex(xs, x) == FirstIndex(init, x) {
          var a, b := FirstIndex(xs, x), FirstIndex(init, x);
          assert xs[b] == x;
          assert a <= b;
          assert init[a] == x;
        }
      }
      if last in p then p
      else
        assert FirstIndex(xs, last) == |xs| - 1;
        p + [last]
  }
}
