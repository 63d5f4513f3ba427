/** `preprocess_target_column` (fair.py, fair2.py): when the target column holds
    any list, every cell of it is replaced by the list's first element, or by None. */
module Preprocess {
  import opened Frames

  /** The value the rewrite gives one cell: the first element of a non-empty list,
      None for anything else (an empty list, but also a plain scalar). */
  function FirstOrNone(v: Value): Value {
    if v.List? && |v.items| > 0 then v.items[0] else Null
  }

  /** The rows after the rewrite of column `c`. When some cell of `c` is a list, each cell
      of `c` becomes its first element or None; every other cell, the number of rows and
      each row's columns stay as they were. */
  function Normalized(rows: seq<Row>, c: string): (out: seq<Row>)
    ensures |out| == |rows|
    ensures forall i | 0 <= i < |rows| :: out[i].Keys == rows[i].Keys
    ensures forall i, d | 0 <= i < |rows| ::
              Cell(out[i], d) == if d == c && HasList(rows, c) then FirstOrNone(Cell(rows[i], c)) else Cell(rows[i], d)
  {
    if HasList(rows, c) then
      seq(|rows|, i requires 0 <= i < |rows| => if c in rows[i] then rows[i][c := FirstOrNone(rows[i][c])] else rows[i])
    else rows
  }

  /** A table stays a table: every row keeps its columns. */
  lemma NormalizedIsRectangular(t: Table, c: string)
    ensures Rectangular(Frame(t.columns, Normalized(t.rows, c)))
  {
    forall i | 0 <= i < |t.rows| ensures Normalized(t.rows, c)[i].Keys == (set x | x in t.columns) {
      assert t.rows[i].Keys == (set x | x in t.columns);
    }
  }

  /** No list's first element is itself a list. */
  predicate NoNestedLists(rows: seq<Row>, c: string) {
    forall r | r in rows :: !FirstOrNone(Cell(r, c)).List?
  }

  /** After the rewrite the column holds scalars only, unless a list held a list. */
  lemma NoListRemains(rows: seq<Row>, c: string)
    requires NoNestedLists(rows, c)
    ensures !HasList(Normalized(rows, c), c)
  {
    if HasList(rows, c) {
      forall r | r in Normalized(rows, c) ensures !Cell(r, c).List? {
        var i :| 0 <= i < |rows| && Normalized(rows, c)[i] == r;
        assert rows[i] in rows;
      }
    }
  }

  /** Rewriting a second time changes nothing, unless a list held a list. */
  lemma NormalizedIdempotent(rows: seq<Row>, c: string)
    requires NoNestedLists(rows, c)
    ensures Normalized(Normalized(rows, c), c) == Normalized(rows, c)
  {
    NoListRemains(rows, c);
  }

  /** The DataFrame the function receives and mutates. */
  class DataFrame {
    var columns: seq<string>
    var rows: seq<Row>

    ghost predicate Valid()
      reads this
    {
      Rectangular(Frame(columns, rows))
    }

    /** The current contents, as a value. */
    function Snapshot(): Table
      reads this
      requires Valid()
    {
      Frame(columns, rows)
    }

    constructor (t: Table)
      ensures Valid() && Snapshot() == t
    {
      columns := t.columns;
      rows := t.rows;
    }

    /** `preprocess_target_column(df, c)`: `df[c]` raises KeyError for an unknown column;
        otherwise the column is overwritten in place when it holds a list. */
    method PreprocessTargetColumn(c: string) returns (r: Result<()>)
      requires Valid()
      modifies this
      ensures Valid()
      ensures columns == old(columns)
      ensures c !in columns ==> r == Err(KeyError(c)) && rows == old(rows)
      ensures c in columns ==> r == Ok(()) && rows == Normalized(old(rows), c)
      ensures !HasList(old(rows), c) ==> rows == old(rows)
      ensures |rows| == |old(rows)|
    {
      if c !in columns {
        return Err(KeyError(c));
      }
      NormalizedIsRectangular(Snapshot(), c);
      if HasList(rows, c) {
        rows := Normalized(rows, c);
      }
      return Ok(());
    }
  }

  /** Cells [1], [] and 1 become 1, None and None: the scalar is dropped too. */
  lemma ScalarBecomesNone()
    ensures var rows: seq<Row> := [map["y" := List([Int(1)])], map["y" := List([])], map["y" := Int(1)]];
            Normalized(rows, "y") == [map["y" := Int(1)], map["y" := Null], map["y" := Null]]
  {
    var rows: seq<Row> := [map["y" := List([Int(1)])], map["y" := List([])], map["y" := Int(1)]];
    assert rows[0] in rows && Cell(rows[0], "y").List?;
    var out := Normalized(rows, "y");
    assert out[0] == map["y" := Int(1)];
    assert out[1] == map["y" := Null];
    assert out[2] == map["y" := Null];
  }
}
