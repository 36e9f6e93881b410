/** List explosion (`_split_dataframe_list`, reagan/subclass.py): every row
    becomes one row per element its target cell yields when iterated. */
module Explode {
  import opened Wrappers
  import opened Json
  import opened Frame

  /** Cells a Python `for` loop can iterate; any other cell raises TypeError. */
  predicate Iterable(v: Value) {
    v.List? || v.Str? || v.Dict?
  }

  /** What `for s in v` visits: list elements, one-character strings, dict keys. */
  function Elements(v: Value): seq<Value>
    requires Iterable(v)
  {
    match v
    case List(items) => items
    case Str(s) => seq(|s|, k requires 0 <= k < |s| => Str([s[k]]))
    case Dict(entries) =>
      var ks := DictKeys(entries);
      seq(|ks|, k requires 0 <= k < |ks| => Str(ks[k]))
  }

  /** The values one row's target cell is replaced by: its elements, or the
      single NaN that the `except` branch appends. */
  function Emitted(v: Value): seq<Value> {
    if Iterable(v) then Elements(v) else [Null]
  }

  /** The row-count law for one cell: the number of elements of an iterable
      cell, one row otherwise. */
  function RowYield(v: Value): nat {
    match v
    case List(items) => |items|
    case Str(s) => |s|
    case Dict(entries) => |DictKeys(entries)|
    case _ => 1
  }

  function YieldSum(rows: seq<Row>, target: string): nat {
    if rows == [] then 0 else YieldSum(rows[..|rows| - 1], target) + RowYield(CellOr(rows[|rows| - 1], target))
  }

  /** The copies of one source row, the target cell set to each emitted value in turn. */
  function ExplodeRow(row: Row, target: string): seq<Row> {
    var es := Emitted(CellOr(row, target));
    seq(|es|, k requires 0 <= k < |es| => row[target := es[k]])
  }

  /** One source row gives one copy per list element, per character of a
      string, per key of a dict, in that order, and a single Null copy for
      any other cell; every copy keeps the row's other cells. */
  lemma ExplodeRowShape(row: Row, target: string)
    ensures forall k :: 0 <= k < |ExplodeRow(row, target)| ==> ExplodeRow(row, target)[k].Keys == row.Keys + {target}
    ensures forall k, n :: 0 <= k < |ExplodeRow(row, target)| && n in row && n != target ==>
      ExplodeRow(row, target)[k][n] == row[n]
    ensures CellOr(row, target).List? ==>
      |ExplodeRow(row, target)| == |CellOr(row, target).items| &&
      forall k :: 0 <= k < |ExplodeRow(row, target)| ==> ExplodeRow(row, target)[k][target] == CellOr(row, target).items[k]
    ensures CellOr(row, target).Str? ==>
      |ExplodeRow(row, target)| == |CellOr(row, target).s| &&
      forall k :: 0 <= k < |ExplodeRow(row, target)| ==> ExplodeRow(row, target)[k][target] == Str([CellOr(row, target).s[k]])
    ensures CellOr(row, target).Dict? ==>
      |ExplodeRow(row, target)| == |DictKeys(CellOr(row, target).entries)| &&
      forall k :: 0 <= k < |ExplodeRow(row, target)| ==>
        ExplodeRow(row, target)[k][target] == Str(DictKeys(CellOr(row, target).entries)[k])
    ensures !Iterable(CellOr(row, target)) ==>
      |ExplodeRow(row, target)| == 1 && ExplodeRow(row, target)[0][target] == Null
  {
  }

  /** The accumulated rows, source rows in order. */
  function ExplodeRows(rows: seq<Row>, target: string): seq<Row> {
    if rows == [] then [] else ExplodeRows(rows[..|rows| - 1], target) + ExplodeRow(rows[|rows| - 1], target)
  }

  /** Explosion works row by row: the rows of a concatenation are the
      concatenation of the rows, so each source row's copies are contiguous
      and in source order. */
  lemma {:induction false} ExplodeRowsAppend(a: seq<Row>, b: seq<Row>, target: string)
    ensures ExplodeRows(a + b, target) == ExplodeRows(a, target) + ExplodeRows(b, target)
    decreases |b|
  {
    if b == [] {
      assert a + b == a;
    } else {
      var front := b[..|b| - 1];
      assert (a + b)[..|a + b| - 1] == a + front;
      assert (a + b)[|a + b| - 1] == b[|b| - 1];
      ExplodeRowsAppend(a, front, target);
    }
  }

  /** Output row count is the sum over rows of `len(cell)` if iterable, else 1;
      an empty list or string contributes no row at all. */
  lemma {:induction false} ExplodeRowsCount(rows: seq<Row>, target: string)
    ensures |ExplodeRows(rows, target)| == YieldSum(rows, target)
  {
    if rows != [] {
      ExplodeRowsCount(rows[..|rows| - 1], target);
      ExplodeRowShape(rows[|rows| - 1], target);
    }
  }

  /** Every output row is a source row with its target cell replaced by one
      of the values that cell emits. */
  lemma {:induction false} ExplodeRowsOrigin(rows: seq<Row>, target: string, k: nat)
    requires k < |ExplodeRows(rows, target)|
    ensures exists i, e :: (0 <= i < |rows| && e in Emitted(CellOr(rows[i], target)) &&
      ExplodeRows(rows, target)[k] == rows[i][target := e])
  {
    var front := rows[..|rows| - 1];
    var last := rows[|rows| - 1];
    if k < |ExplodeRows(front, target)| {
      ExplodeRowsOrigin(front, target, k);
      var i, e :| 0 <= i < |front| && e in Emitted(CellOr(front[i], target)) &&
        ExplodeRows(front, target)[k] == front[i][target := e];
      assert rows[i] == front[i];
    } else {
      var j := k - |ExplodeRows(front, target)|;
      var es := Emitted(CellOr(last, target));
      assert ExplodeRows(rows, target)[k] == last[target := es[j]];
      assert es[j] in es;
    }
  }

  lemma ExplodeRowsKeys(rows: seq<Row>, target: string, keys: set<string>)
    requires target in keys
    requires forall i :: 0 <= i < |rows| ==> rows[i].Keys == keys
    ensures forall k :: 0 <= k < |ExplodeRows(rows, target)| ==> ExplodeRows(rows, target)[k].Keys == keys
  {
    forall k | 0 <= k < |ExplodeRows(rows, target)| ensures ExplodeRows(rows, target)[k].Keys == keys {
      ExplodeRowsOrigin(rows, target, k);
    }
  }

  lemma ExplodeRowPrefix(row: Row, target: string, k: nat)
    requires k < |Emitted(CellOr(row, target))|
    ensures ExplodeRow(row, target)[..k + 1] ==
      ExplodeRow(row, target)[..k] + [row[target := Emitted(CellOr(row, target))[k]]]
  {
  }

  lemma ExplodeRowsSnoc(rows: seq<Row>, target: string, i: nat)
    requires i < |rows|
    ensures ExplodeRows(rows[..i + 1], target) == ExplodeRows(rows[..i], target) + ExplodeRow(rows[i], target)
  {
    assert rows[..i + 1][..i] == rows[..i];
  }

  /** What `_split_dataframe_list` returns: `KeyError` when a row lacks the
      column, otherwise `pd.DataFrame(row_accumulator)`, which has no columns
      at all when no row was accumulated. */
  function ExplodeTable(t: Table, target: string): (r: Result<Table, Error>)
    requires t.Valid()
    ensures r.Failure? <==> |t.rows| > 0 && target !in t.columns
    ensures r.Failure? ==> r.error == KeyError(target)
    ensures r.Success? ==> r.value.Valid()
    ensures r.Success? ==> |r.value.rows| == YieldSum(t.rows, target)
    ensures r.Success? && r.value.rows != [] ==> r.value.columns == t.columns
    ensures r.Success? && r.value.rows == [] ==> r.value.columns == []
  {
    if |t.rows| > 0 && target !in t.columns then Failure(KeyError(target))
    else
      var rows := ExplodeRows(t.rows, target);
      ExplodeRowsCount(t.rows, target);
      if rows == [] then Success(Table([], []))
      else
        ExplodeRowsKeys(t.rows, target, t.ColumnSet());
        Success(Table(t.columns, rows))
  }

  method SplitDataframeList(t: Table, target: string) returns (r: Result<Table, Error>)
    requires t.Valid()
    ensures r == ExplodeTable(t, target)
    ensures r.Success? ==> r.value.rows == ExplodeRows(t.rows, target)
  {
    var accumulator: seq<Row> := [];
    var i := 0;
    while i < |t.rows|
      invariant 0 <= i <= |t.rows|
      invariant accumulator == ExplodeRows(t.rows[..i], target)
      invariant i > 0 ==> target in t.columns
    {
      var row := t.rows[i];
      if target !in row {
        assert t.rows[i].Keys == t.ColumnSet();
        return Failure(KeyError(target));
      }
      var split := row[target];
      var elements: seq<Value>;
      if Iterable(split) {
        elements := Elements(split);
      } else {
        elements := [Null];
      }
      assert elements == Emitted(CellOr(row, target));
      ghost var before := accumulator;
      var k := 0;
      while k < |elements|
        invariant 0 <= k <= |elements|
        invariant accumulator == before + ExplodeRow(row, target)[..k]
      {
        accumulator := accumulator + [row[target := elements[k]]];
        ExplodeRowPrefix(row, target, k);
        k := k + 1;
      }
      assert ExplodeRow(row, target)[..k] == ExplodeRow(row, target);
      ExplodeRowsSnoc(t.rows, target, i);
      i := i + 1;
    }
    assert t.rows[..i] == t.rows;
    r := Success(Table(if accumulator == [] then [] else t.columns, accumulator));
  }
}
