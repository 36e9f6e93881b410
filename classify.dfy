/** The shape classifier (`_get_nested_columns`, reagan/subclass.py): which
    columns still hold lists or dicts, kept as an insertion-ordered dict from
    column label to tag. */
module Classifier {
  import opened Wrappers
  import opened Json
  import opened Frame

  datatype Tag = ListTag | DictTag

  /** A Python dict from column label to tag, in insertion order. */
  type Nested = seq<(string, Tag)>

  /** What the classifier makes of one cell of column `col`: a list always
      tags the column, a dict only when `col` is not itself a requested column. */
  function CellTag(v: Value, col: string, targets: seq<string>): Option<Tag> {
    if v.List? then Some(ListTag)
    else if col in targets then None
    else if v.Dict? then Some(DictTag)
    else None
  }

  predicate DistinctKeys(m: Nested) {
    forall p, q :: 0 <= p < q < |m| ==> m[p].0 != m[q].0
  }

  function Names(m: Nested): set<string> {
    set q | 0 <= q < |m| :: m[q].0
  }

  function Lookup(m: Nested, col: string): (r: Option<Tag>)
    ensures r.Some? <==> col in Names(m)
    ensures DistinctKeys(m) ==> forall q :: 0 <= q < |m| && m[q].0 == col ==> r == Some(m[q].1)
  {
    if m == [] then None
    else if m[0].0 == col then Some(m[0].1)
    else
      var r := Lookup(m[1..], col);
      assert Names(m) == {m[0].0} + Names(m[1..]) by {
        forall c | c in Names(m) ensures c in {m[0].0} + Names(m[1..]) {
          var q :| 0 <= q < |m| && m[q].0 == c;
          if q > 0 { assert m[1..][q - 1] == m[q]; }
        }
        forall c | c in Names(m[1..]) ensures c in Names(m) {
          var q :| 0 <= q < |m[1..]| && m[1..][q].0 == c;
          assert m[q + 1] == m[1..][q];
        }
      }
      assert DistinctKeys(m) ==> DistinctKeys(m[1..]);
      assert forall q :: 0 < q < |m| ==> m[1..][q - 1] == m[q];
      r
  }

  /** `nested_cols[col] = tag`: overwrites in place when present, else appends. */
  function Put(m: Nested, col: string, tag: Tag): (r: Nested)
    ensures forall n :: Lookup(r, n) == if n == col then Some(tag) else Lookup(m, n)
    ensures DistinctKeys(m) ==> DistinctKeys(r)
  {
    if m == [] then [(col, tag)]
    else if m[0].0 == col then [(col, tag)] + m[1..]
    else
      var rest := Put(m[1..], col, tag);
      var r := [m[0]] + rest;
      assert forall q :: 0 < q < |r| ==> r[q] == rest[q - 1];
      assert forall q :: 0 < q < |m| ==> m[q] == m[1..][q - 1];
      assert DistinctKeys(m) ==> m[0].0 !in Names(m[1..]);
      assert DistinctKeys(m) ==> Lookup(rest, m[0].0).None?;
      assert forall q :: 0 <= q < |rest| ==> rest[q].0 in Names(rest);
      r
  }

  /** One cell visited by the inner loop. */
  function Visit(m: Nested, col: string, row: Row, targets: seq<string>): Nested {
    match CellTag(CellOr(row, col), col, targets)
    case Some(tag) => Put(m, col, tag)
    case None => m
  }

  /** The inner loop over the columns of one row. */
  function ScanRow(m: Nested, cols: seq<string>, row: Row, targets: seq<string>): Nested {
    if cols == [] then m
    else Visit(ScanRow(m, cols[..|cols| - 1], row, targets), cols[|cols| - 1], row, targets)
  }

  /** The outer loop over the rows. */
  function ScanRows(m: Nested, cols: seq<string>, rows: seq<Row>, targets: seq<string>): Nested {
    if rows == [] then m
    else ScanRow(ScanRows(m, cols, rows[..|rows| - 1], targets), cols, rows[|rows| - 1], targets)
  }

  /** What `_get_nested_columns(df, columns)` returns. */
  function Classify(t: Table, targets: seq<string>): Nested {
    ScanRows([], t.columns, t.rows, targets)
  }

  /** The tag of the last cell in column `col` that tags it at all. */
  function LastTag(rows: seq<Row>, col: string, targets: seq<string>): (r: Option<Tag>)
    ensures r.Some? <==> exists i :: 0 <= i < |rows| && CellTag(CellOr(rows[i], col), col, targets).Some?
    ensures r.Some? ==> exists i :: 0 <= i < |rows| && CellTag(CellOr(rows[i], col), col, targets) == r &&
                          forall j :: i < j < |rows| ==> CellTag(CellOr(rows[j], col), col, targets).None?
    ensures r == Some(DictTag) ==> col !in targets
  {
    if rows == [] then None
    else
      var last := CellTag(CellOr(rows[|rows| - 1], col), col, targets);
      if last.Some? then last
      else
        var r := LastTag(rows[..|rows| - 1], col, targets);
        assert forall i :: 0 <= i < |rows| - 1 ==> rows[..|rows| - 1][i] == rows[i];
        r
  }

  lemma {:induction false} LookupScanRow(m: Nested, cols: seq<string>, row: Row, targets: seq<string>, n: string)
    ensures Lookup(ScanRow(m, cols, row, targets), n) ==
      if n in cols && CellTag(CellOr(row, n), n, targets).Some? then CellTag(CellOr(row, n), n, targets) else Lookup(m, n)
  {
    if cols != [] {
      var front := cols[..|cols| - 1];
      LookupScanRow(m, front, row, targets, n);
      assert cols == front + [cols[|cols| - 1]];
      assert n in cols <==> n in front || n == cols[|cols| - 1];
    }
  }

  lemma {:induction false} LookupScanRows(m: Nested, cols: seq<string>, rows: seq<Row>, targets: seq<string>, n: string)
    ensures Lookup(ScanRows(m, cols, rows, targets), n) ==
      if n in cols && LastTag(rows, n, targets).Some? then LastTag(rows, n, targets) else Lookup(m, n)
  {
    if rows != [] {
      LookupScanRows(m, cols, rows[..|rows| - 1], targets, n);
      LookupScanRow(ScanRows(m, cols, rows[..|rows| - 1], targets), cols, rows[|rows| - 1], targets, n);
    }
  }

  lemma {:induction false} ScanRowDistinct(m: Nested, cols: seq<string>, row: Row, targets: seq<string>)
    requires DistinctKeys(m)
    ensures DistinctKeys(ScanRow(m, cols, row, targets))
  {
    if cols != [] {
      ScanRowDistinct(m, cols[..|cols| - 1], row, targets);
    }
  }

  lemma {:induction false} ScanRowsDistinct(m: Nested, cols: seq<string>, rows: seq<Row>, targets: seq<string>)
    requires DistinctKeys(m)
    ensures DistinctKeys(ScanRows(m, cols, rows, targets))
  {
    if rows != [] {
      ScanRowsDistinct(m, cols, rows[..|rows| - 1], targets);
      ScanRowDistinct(ScanRows(m, cols, rows[..|rows| - 1], targets), cols, rows[|rows| - 1], targets);
    }
  }

  /** A column is reported exactly when it has a cell that tags it, with the
      tag of the last such cell; each column is reported once. */
  lemma ClassifyLastWins(t: Table, targets: seq<string>)
    ensures DistinctKeys(Classify(t, targets))
    ensures forall n :: Lookup(Classify(t, targets), n) == if n in t.columns then LastTag(t.rows, n, targets) else None
  {
    ScanRowsDistinct([], t.columns, t.rows, targets);
    forall n ensures Lookup(Classify(t, targets), n) == if n in t.columns then LastTag(t.rows, n, targets) else None {
      LookupScanRows([], t.columns, t.rows, targets, n);
    }
  }

  /** What the classifier's result says about a well-formed table. */
  lemma ClassifyFacts(t: Table, targets: seq<string>)
    requires t.Valid()
    ensures DistinctKeys(Classify(t, targets))
    ensures forall n :: n in Names(Classify(t, targets)) <==>
      n in t.columns && exists i :: 0 <= i < |t.rows| && CellTag(t.rows[i][n], n, targets).Some?
    ensures forall q :: 0 <= q < |Classify(t, targets)| ==>
      LastTag(t.rows, Classify(t, targets)[q].0, targets) == Some(Classify(t, targets)[q].1)
    ensures forall q :: 0 <= q < |Classify(t, targets)| && Classify(t, targets)[q].1 == DictTag ==>
      Classify(t, targets)[q].0 !in targets
  {
    var m := Classify(t, targets);
    ClassifyLastWins(t, targets);
    assert forall k, n :: 0 <= k < |t.rows| && n in t.columns ==> CellOr(t.rows[k], n) == t.rows[k][n];
    forall q | 0 <= q < |m| ensures LastTag(t.rows, m[q].0, targets) == Some(m[q].1) {
      assert m[q].0 in Names(m);
      assert Lookup(m, m[q].0) == Some(m[q].1);
    }
  }

  lemma ScanRowStep(m: Nested, cols: seq<string>, j: nat, row: Row, targets: seq<string>)
    requires j < |cols|
    ensures ScanRow(m, cols[..j + 1], row, targets) == Visit(ScanRow(m, cols[..j], row, targets), cols[j], row, targets)
  {
    assert cols[..j + 1][..j] == cols[..j];
  }

  lemma ScanRowsStep(cols: seq<string>, rows: seq<Row>, i: nat, targets: seq<string>)
    requires i < |rows|
    ensures ScanRows([], cols, rows[..i + 1], targets) == ScanRow(ScanRows([], cols, rows[..i], targets), cols, rows[i], targets)
  {
    assert rows[..i + 1][..i] == rows[..i];
  }

  method GetNestedColumns(t: Table, targets: seq<string>) returns (nested: Nested)
    requires t.Valid()
    ensures nested == Classify(t, targets)
    ensures DistinctKeys(nested)
    ensures forall n :: n in Names(nested) <==>
      n in t.columns && exists i :: 0 <= i < |t.rows| && CellTag(t.rows[i][n], n, targets).Some?
    ensures forall q :: 0 <= q < |nested| ==> LastTag(t.rows, nested[q].0, targets) == Some(nested[q].1)
    ensures forall q :: 0 <= q < |nested| && nested[q].1 == DictTag ==> nested[q].0 !in targets
  {
    nested := [];
    var i := 0;
    while i < |t.rows|
      invariant 0 <= i <= |t.rows|
      invariant nested == ScanRows([], t.columns, t.rows[..i], targets)
    {
      var row := t.rows[i];
      assert row.Keys == t.ColumnSet();
      ghost var before := nested;
      var j := 0;
      while j < |t.columns|
        invariant 0 <= j <= |t.columns|
        invariant nested == ScanRow(before, t.columns[..j], row, targets)
      {
        var col := t.columns[j];
        ghost var visited := Visit(nested, col, row, targets);
        var value := row[col];
        if value.List? {
          nested := Put(nested, col, ListTag);
        } else if col in targets {
        } else if value.Dict? {
          nested := Put(nested, col, DictTag);
        }
        assert nested == visited;
        ScanRowStep(before, t.columns, j, row, targets);
        j := j + 1;
      }
      assert t.columns[..j] == t.columns;
      ScanRowsStep(t.columns, t.rows, i, targets);
      i := i + 1;
    }
    assert t.rows[..i] == t.rows;
    ClassifyFacts(t, targets);
  }
}
