/** Dict lift (the `typ == "dict"` branch of `_unnest`, reagan/subclass.py):
    every key `k` seen in column `col` becomes a column `col_k`, and `col` goes. */
module Lift {
  import opened Wrappers
  import opened Json
  import opened Seqs
  import opened Frame

  /** `{} if pd.isnull(x) else x`, read as a dict. */
  function AsEntries(v: Value): seq<(string, Value)> {
    if v.Dict? then v.entries else []
  }

  /** The keys of the dict `row` holds in column `col`. */
  function RowKeys(row: Row, col: string): seq<string> {
    DictKeys(AsEntries(CellOr(row, col)))
  }

  /** Some row's dict in column `col` has `key`. */
  predicate SeenKey(rows: seq<Row>, col: string, key: string) {
    exists i :: 0 <= i < |rows| && key in RowKeys(rows[i], col)
  }

  /** The keys of every row's dict in column `col`, each once, in first-seen order. */
  function LiftedKeys(rows: seq<Row>, col: string): (ks: seq<string>)
    ensures Distinct(ks)
  {
    if rows == [] then []
    else AddNew(LiftedKeys(rows[..|rows| - 1], col), RowKeys(rows[|rows| - 1], col))
  }

  lemma SeenKeySnoc(front: seq<Row>, last: Row, col: string, key: string)
    ensures SeenKey(front + [last], col, key) <==> SeenKey(front, col, key) || key in RowKeys(last, col)
  {
    if SeenKey(front + [last], col, key) {
      SeenKeyInSnoc(front, last, col, key);
    }
    if SeenKey(front, col, key) {
      SeenKeyGrows(front, last, col, key);
    }
    if key in RowKeys(last, col) {
      SeenAt(front + [last], col, key, |front|);
    }
  }

  lemma SeenKeyInSnoc(front: seq<Row>, last: Row, col: string, key: string)
    requires SeenKey(front + [last], col, key)
    ensures SeenKey(front, col, key) || key in RowKeys(last, col)
  {
    var rows := front + [last];
    var i :| 0 <= i < |rows| && key in RowKeys(rows[i], col);
    if i < |front| {
      SeenInFront(front, last, col, key, i);
    } else {
      assert i == |front|;
      SeenInLast(front, last, col, key);
    }
  }

  lemma SeenInFront(front: seq<Row>, last: Row, col: string, key: string, i: nat)
    requires i < |front| && key in RowKeys((front + [last])[i], col)
    ensures SeenKey(front, col, key)
  {
    SeenAt(front, col, key, i);
  }

  lemma SeenInLast(front: seq<Row>, last: Row, col: string, key: string)
    requires key in RowKeys((front + [last])[|front|], col)
    ensures key in RowKeys(last, col)
  {
  }

  lemma SeenKeyGrows(front: seq<Row>, last: Row, col: string, key: string)
    requires SeenKey(front, col, key)
    ensures SeenKey(front + [last], col, key)
  {
    var i :| 0 <= i < |front| && key in RowKeys(front[i], col);
    var rows := front + [last];
    SeenAt(rows, col, key, i);
  }

  lemma SeenAt(rows: seq<Row>, col: string, key: string, i: nat)
    requires i < |rows| && key in RowKeys(rows[i], col)
    ensures SeenKey(rows, col, key)
  {
  }

  /** A column `col_k` is created for every key seen in any row, not only the first. */
  lemma {:induction false} LiftedKeysSeen(rows: seq<Row>, col: string, key: string)
    ensures key in LiftedKeys(rows, col) <==> SeenKey(rows, col, key)
  {
    if rows != [] {
      var front := rows[..|rows| - 1];
      var last := rows[|rows| - 1];
      assert rows == front + [last];
      SeenKeySnoc(front, last, col, key);
      LiftedKeysSeen(front, col, key);
    }
  }

  /** `str(col) + "_" + str(key)`. */
  function ChildName(col: string, key: string): string {
    col + "_" + key
  }

  /** The key a child column was made from. */
  function KeyOf(col: string, name: string): string {
    if |name| > |col| then name[|col| + 1..] else ""
  }

  function ChildNames(col: string, keys: seq<string>): (names: seq<string>)
    requires Distinct(keys)
    ensures Distinct(names)
    ensures forall n :: n in names <==> exists key :: key in keys && n == ChildName(col, key)
    ensures forall n :: n in names ==> ChildName(col, KeyOf(col, n)) == n && KeyOf(col, n) in keys
    ensures col !in names
  {
    var names := seq(|keys|, k requires 0 <= k < |keys| => ChildName(col, keys[k]));
    assert forall k :: 0 <= k < |keys| ==> KeyOf(col, names[k]) == keys[k];
    assert forall n :: (exists key :: key in keys && n == ChildName(col, key)) ==> n in names by {
      forall n | exists key :: key in keys && n == ChildName(col, key) ensures n in names {
        var key :| key in keys && n == ChildName(col, key);
        var k :| 0 <= k < |keys| && keys[k] == key;
        assert names[k] == n;
      }
    }
    assert forall k :: 0 <= k < |names| ==> |names[k]| > |col|;
    names
  }

  /** The cell a row gets in column `col_key`: the row's value for `key`, or NaN. */
  function ChildValue(v: Value, key: string): Value {
    match DictGet(AsEntries(v), key)
    case Some(x) => x
    case None => Null
  }

  function LiftRow(row: Row, col: string, children: set<string>): Row {
    map n | n in (row.Keys - {col}) + children ::
      if n in children then ChildValue(CellOr(row, col), KeyOf(col, n)) else row[n]
  }

  /** The labels `col_k` of the columns a dict lift creates. */
  function Children(t: Table, col: string): set<string> {
    set n | n in ChildNames(col, LiftedKeys(t.rows, col))
  }

  function LiftedColumns(t: Table, col: string): seq<string> {
    var names := ChildNames(col, LiftedKeys(t.rows, col));
    Filter(t.columns, t.ColumnSet() - {col} - (set n | n in names)) + names
  }

  /** `pd.isnull` of a list is an array, and `{} if <array> else x` raises
      when that array has two or more entries. The array's size is taken
      here as the list's outer length, which differs for nested lists. */
  predicate AmbiguousTruth(v: Value) {
    v.List? && |v.items| >= 2
  }

  /** Some row holds such a list in column `col`. */
  predicate AnyAmbiguous(rows: seq<Row>, col: string) {
    exists i :: 0 <= i < |rows| && AmbiguousTruth(CellOr(rows[i], col))
  }

  const AmbiguousTruthMessage := "The truth value of an array with more than one element is ambiguous. Use a.any() or a.all()"

  /** The dict lift of column `col`: `KeyError` when the column is absent,
      `ValueError` when one of its cells is a list of two or more elements
      (the outer-length approximation of the ambiguous-truth error). */
  function LiftDict(t: Table, col: string): (r: Result<Table, Error>)
    requires t.Valid()
    ensures r.Failure? <==> col !in t.columns || AnyAmbiguous(t.rows, col)
    ensures r.Failure? ==> r.error == if col !in t.columns then KeyError(col) else ValueError(AmbiguousTruthMessage)
    ensures r.Success? ==> r.value.Valid() && |r.value.rows| == |t.rows|
  {
    if col !in t.columns then Failure(KeyError(col))
    else if AnyAmbiguous(t.rows, col) then Failure(ValueError(AmbiguousTruthMessage))
    else
      var children := Children(t, col);
      var rows := seq(|t.rows|, i requires 0 <= i < |t.rows| => LiftRow(t.rows[i], col, children));
      var u := Table(LiftedColumns(t, col), rows);
      LiftedColumnsValid(t, col);
      assert forall i :: 0 <= i < |rows| ==> rows[i].Keys == u.ColumnSet() by {
        forall i | 0 <= i < |rows| ensures rows[i].Keys == u.ColumnSet() {
          assert t.rows[i].Keys == t.ColumnSet();
        }
      }
      Success(u)
  }

  lemma LiftedColumnsValid(t: Table, col: string)
    requires t.Valid()
    ensures Distinct(LiftedColumns(t, col))
    ensures forall n :: n in LiftedColumns(t, col) <==>
      (n in t.columns && n != col && n !in ChildNames(col, LiftedKeys(t.rows, col))) || n in ChildNames(col, LiftedKeys(t.rows, col))
  {
    var names := ChildNames(col, LiftedKeys(t.rows, col));
    var kept := Filter(t.columns, t.ColumnSet() - {col} - (set n | n in names));
    forall p, q | 0 <= p < q < |kept + names| ensures (kept + names)[p] != (kept + names)[q] {
      if p < |kept| && q >= |kept| {
        assert (kept + names)[q] in names;
        assert (kept + names)[p] in kept;
      }
    }
  }

  /** Dict lift removes `col` and adds `col_k` for exactly the keys `k` seen in
      some row; every other column stays. */
  lemma LiftDictColumns(t: Table, col: string)
    requires t.Valid() && col in t.columns && !AnyAmbiguous(t.rows, col)
    ensures col !in LiftDict(t, col).value.columns
    ensures forall n :: n in LiftDict(t, col).value.columns <==>
      (n in t.columns && n != col) || exists key :: SeenKey(t.rows, col, key) && n == ChildName(col, key)
  {
    LiftedColumnsValid(t, col);
    forall key ensures key in LiftedKeys(t.rows, col) <==> SeenKey(t.rows, col, key) {
      LiftedKeysSeen(t.rows, col, key);
    }
  }

  /** Each row's `col_k` cell is its dict's value for `k`, or Null when its dict
      lacks `k` (a Null cell counts as `{}`); every other kept cell is unchanged. */
  lemma LiftDictCells(t: Table, col: string, i: nat, key: string)
    requires t.Valid() && col in t.columns && !AnyAmbiguous(t.rows, col) && i < |t.rows| && SeenKey(t.rows, col, key)
    ensures CellOr(LiftDict(t, col).value.rows[i], ChildName(col, key)) == ChildValue(t.rows[i][col], key)
    ensures t.rows[i][col] == Null ==> CellOr(LiftDict(t, col).value.rows[i], ChildName(col, key)) == Null
  {
    LiftedKeysSeen(t.rows, col, key);
    var n := ChildName(col, key);
    assert n in Children(t, col);
    assert KeyOf(col, n) == key;
    assert col in t.rows[i] by { assert t.rows[i].Keys == t.ColumnSet(); }
    LiftDictRow(t, col, i);
    LiftRowChild(t.rows[i], col, Children(t, col), n);
  }

  lemma LiftDictRow(t: Table, col: string, i: nat)
    requires t.Valid() && col in t.columns && !AnyAmbiguous(t.rows, col) && i < |t.rows|
    ensures LiftDict(t, col).value.rows[i] == LiftRow(t.rows[i], col, Children(t, col))
  {
  }

  lemma LiftRowChild(row: Row, col: string, children: set<string>, n: string)
    requires n in children
    ensures n in LiftRow(row, col, children)
    ensures LiftRow(row, col, children)[n] == ChildValue(CellOr(row, col), KeyOf(col, n))
  {
  }

  lemma LiftDictKeeps(t: Table, col: string, i: nat, n: string)
    requires t.Valid() && col in t.columns && !AnyAmbiguous(t.rows, col) && i < |t.rows|
    requires n in t.columns && n != col && n !in ChildNames(col, LiftedKeys(t.rows, col))
    ensures LiftDict(t, col).value.rows[i][n] == t.rows[i][n]
  {
    assert t.rows[i].Keys == t.ColumnSet();
  }
}
