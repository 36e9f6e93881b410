/** The flattening driver (`_unnest` and `_json_to_df`, reagan/subclass.py):
    prune, classify, then explode every list column and lift every dict
    column, pass after pass, until the classifier reports nothing. */
module Unnest {
  import opened Wrappers
  import opened Json
  import opened Seqs
  import opened Frame
  import opened Loader
  import opened Prune
  import opened Classifier
  import opened Explode
  import opened Lift

  /** How deep a cell still nests where the classifier would tag it; a cell
      the classifier ignores (a scalar, or a dict in a requested column)
      counts as flat. */
  ghost function RelDepth(v: Value, col: string, targets: seq<string>): nat {
    if CellTag(v, col, targets).Some? then Depth(v) else 0
  }

  /** Every cell is at most `b` levels deep, one level less in the columns
      the current pass has already handled (those not in `pending`). */
  ghost predicate PassBounded(rows: seq<Row>, targets: seq<string>, pending: set<string>, b: nat) {
    forall i, n :: 0 <= i < |rows| && n in rows[i] ==>
      RelDepth(rows[i][n], n, targets) + (if n in pending then 0 else 1) <= b
  }

  ghost predicate Bounded(rows: seq<Row>, targets: seq<string>, b: nat) {
    forall i, n :: 0 <= i < |rows| && n in rows[i] ==> RelDepth(rows[i][n], n, targets) <= b
  }

  ghost function RowMax(row: Row, cols: seq<string>, targets: seq<string>): (m: nat)
    ensures forall k :: 0 <= k < |cols| ==> RelDepth(CellOr(row, cols[k]), cols[k], targets) <= m
  {
    if cols == [] then 0
    else
      var d := RelDepth(CellOr(row, cols[0]), cols[0], targets);
      var rest := RowMax(row, cols[1..], targets);
      if d < rest then rest else d
  }

  /** The deepest nesting in the table's rows, a bound on the number of passes. */
  ghost function TableMax(rows: seq<Row>, cols: seq<string>, targets: seq<string>): (m: nat)
    ensures forall i :: 0 <= i < |rows| ==> RowMax(rows[i], cols, targets) <= m
  {
    if rows == [] then 0
    else
      var d := RowMax(rows[0], cols, targets);
      var rest := TableMax(rows[1..], cols, targets);
      if d < rest then rest else d
  }

  lemma TableMaxBounds(t: Table, targets: seq<string>)
    requires t.Valid()
    ensures Bounded(t.rows, targets, TableMax(t.rows, t.columns, targets))
  {
    forall i, n | 0 <= i < |t.rows| && n in t.rows[i]
      ensures RelDepth(t.rows[i][n], n, targets) <= TableMax(t.rows, t.columns, targets)
    {
      assert t.rows[i].Keys == t.ColumnSet();
      var k :| 0 <= k < |t.columns| && t.columns[k] == n;
      assert RelDepth(CellOr(t.rows[i], t.columns[k]), t.columns[k], targets) <= RowMax(t.rows[i], t.columns, targets);
    }
  }

  /** A table the classifier still reports on has a cell at least one level deep. */
  lemma TaggedNeedsBound(t: Table, targets: seq<string>, b: nat)
    requires t.Valid() && Bounded(t.rows, targets, b) && Classify(t, targets) != []
    ensures b >= 1
  {
    var m := Classify(t, targets);
    var n := m[0].0;
    assert n in Names(m);
    ClassifyLastWins(t, targets);
    assert Lookup(m, n).Some?;
    var i :| 0 <= i < |t.rows| && CellTag(CellOr(t.rows[i], n), n, targets).Some?;
    TaggedCellIsDeep(t.rows[i], n, targets);
  }

  lemma TaggedCellIsDeep(row: Row, n: string, targets: seq<string>)
    requires CellTag(CellOr(row, n), n, targets).Some?
    ensures n in row && RelDepth(row[n], n, targets) >= 1
  {
    var v := row[n];
    assert v.List? || v.Dict?;
  }

  /** At the start of a pass, only the reported columns can hold nested cells. */
  lemma StartPass(t: Table, targets: seq<string>, b: nat)
    requires t.Valid() && Bounded(t.rows, targets, b) && b >= 1
    ensures PassBounded(t.rows, targets, Names(Classify(t, targets)), b)
  {
    ClassifyFacts(t, targets);
    forall i, n | 0 <= i < |t.rows| && n in t.rows[i] && n !in Names(Classify(t, targets))
      ensures RelDepth(t.rows[i][n], n, targets) == 0
    {
      assert t.rows[i].Keys == t.ColumnSet();
    }
  }

  /** Exploding a cell yields cells one level shallower, or flat ones. */
  lemma EmittedShallower(v: Value, col: string, targets: seq<string>, e: Value)
    requires e in Emitted(v)
    ensures RelDepth(e, col, targets) == 0 || RelDepth(e, col, targets) < RelDepth(v, col, targets)
  {
    if v.List? {
      var k :| 0 <= k < |v.items| && v.items[k] == e;
      ListElementShallower(v.items, k);
    }
  }

  /** Lifting a dict that the classifier tagged yields cells one level shallower, or Null. */
  lemma ChildShallower(v: Value, col: string, key: string, child: string, targets: seq<string>)
    requires col !in targets
    ensures RelDepth(ChildValue(v, key), child, targets) == 0 ||
      RelDepth(ChildValue(v, key), child, targets) < RelDepth(v, col, targets)
  {
    if v.Dict? {
      var got := DictGet(v.entries, key);
      if got.Some? {
        var k :| 0 <= k < |v.entries| && v.entries[k] == (key, got.value);
        DictValueShallower(v.entries, k);
      }
    }
  }

  lemma ExplodeStep(rows: seq<Row>, c: string, targets: seq<string>, pending: set<string>, b: nat)
    requires PassBounded(rows, targets, pending, b) && b >= 1 && c in pending
    ensures PassBounded(ExplodeRows(rows, c), targets, pending - {c}, b)
  {
    var out := ExplodeRows(rows, c);
    forall k, n | 0 <= k < |out| && n in out[k]
      ensures RelDepth(out[k][n], n, targets) + (if n in pending - {c} then 0 else 1) <= b
    {
      ExplodeRowsOrigin(rows, c, k);
      var i, e :| 0 <= i < |rows| && e in Emitted(CellOr(rows[i], c)) && out[k] == rows[i][c := e];
      if n == c {
        EmittedShallower(CellOr(rows[i], c), c, targets, e);
      }
    }
  }

  lemma LiftStep(t: Table, c: string, targets: seq<string>, pending: set<string>, b: nat)
    requires t.Valid() && c in t.columns && !AnyAmbiguous(t.rows, c) && c !in targets
    requires PassBounded(t.rows, targets, pending, b) && b >= 1 && c in pending
    ensures PassBounded(LiftDict(t, c).value.rows, targets, pending - {c}, b)
  {
    var out := LiftDict(t, c).value.rows;
    var children := Children(t, c);
    forall i, n | 0 <= i < |out| && n in out[i]
      ensures RelDepth(out[i][n], n, targets) + (if n in pending - {c} then 0 else 1) <= b
    {
      LiftDictRow(t, c, i);
      assert t.rows[i].Keys == t.ColumnSet();
      if n in children {
        LiftRowChild(t.rows[i], c, children, n);
        ChildShallower(CellOr(t.rows[i], c), c, KeyOf(c, n), n, targets);
      }
    }
  }

  /** The pending columns still to handle in a pass over `cols` at position `p`. */
  function Pending(cols: Nested, p: nat): set<string>
    requires p <= |cols|
  {
    Names(cols[p..])
  }

  lemma PendingStep(cols: Nested, p: nat)
    requires DistinctKeys(cols) && p < |cols|
    ensures cols[p].0 in Pending(cols, p)
    ensures Pending(cols, p + 1) == Pending(cols, p) - {cols[p].0}
  {
    assert cols[p..][0] == cols[p];
    forall n | n in Pending(cols, p) && n != cols[p].0 ensures n in Pending(cols, p + 1) {
      var q :| 0 <= q < |cols[p..]| && cols[p..][q].0 == n;
      assert cols[p + 1..][q - 1] == cols[p..][q];
    }
    forall n | n in Pending(cols, p + 1) ensures n in Pending(cols, p) && n != cols[p].0 {
      var q :| 0 <= q < |cols[p + 1..]| && cols[p + 1..][q].0 == n;
      assert cols[p..][q + 1] == cols[p + 1..][q];
    }
  }

  /** One step of a pass: explode a list column, lift a dict column. */
  function Expand(t: Table, col: string, tag: Tag): (r: Result<Table, Error>)
    requires t.Valid()
    ensures r.Success? ==> r.value.Valid()
    ensures r.Failure? ==> r.error == KeyError(col) || r.error == ValueError(AmbiguousTruthMessage)
  {
    if tag == ListTag then ExplodeTable(t, col) else LiftDict(t, col)
  }

  /** A whole pass of `for col, typ in cols.items()`: each reported column
      expanded in turn, the first exception ending the pass. */
  function PassSpec(t: Table, cols: Nested): (r: Result<Table, Error>)
    requires t.Valid()
    ensures r.Success? ==> r.value.Valid()
    ensures r.Failure? ==> r.error.KeyError? || r.error == ValueError(AmbiguousTruthMessage)
    decreases |cols|
  {
    if cols == [] then Success(t)
    else
      match Expand(t, cols[0].0, cols[0].1)
      case Failure(e) => Failure(e)
      case Success(u) => PassSpec(u, cols[1..])
  }

  /** A pass over `a + b` is the pass over `a` followed, when that succeeds,
      by the pass over `b`. */
  lemma {:induction false} PassSpecAppend(t: Table, a: Nested, b: Nested)
    requires t.Valid()
    ensures PassSpec(t, a + b) ==
      match PassSpec(t, a)
      case Failure(e) => Failure(e)
      case Success(u) => PassSpec(u, b)
    decreases |a|
  {
    if a == [] {
      assert a + b == b;
    } else {
      assert (a + b)[0] == a[0];
      assert (a + b)[1..] == a[1..] + b;
      var step := Expand(t, a[0].0, a[0].1);
      if step.Success? {
        PassSpecAppend(step.value, a[1..], b);
      }
    }
  }

  /** `df = self._reduce_columns(df, columns)`, done only when columns were requested. */
  function Pruned(t: Table, targets: seq<string>): (r: Table)
    requires t.Valid()
    ensures r.Valid() && |r.rows| == |t.rows|
    ensures forall c :: c in r.columns <==> c in t.columns && (targets != [] ==> Wanted(c, targets))
  {
    if targets != [] then Project(t, WantedColumns(t, targets)) else t
  }

  /** The `while len(cols) > 0` loop from table `t`, given at most `fuel` more
      passes; `None` when the passes are not done by then. */
  function UnnestFrom(t: Table, targets: seq<string>, fuel: nat): (r: Option<Result<Table, Error>>)
    requires t.Valid()
    ensures r.Some? && r.value.Success? ==> r.value.value.Valid() && Classify(r.value.value, targets) == []
    ensures r.Some? && r.value.Failure? ==> r.value.error.KeyError? || r.value.error == ValueError(AmbiguousTruthMessage)
    decreases fuel
  {
    if Classify(t, targets) == [] then Some(Success(t))
    else if fuel == 0 then None
    else
      match PassSpec(t, Classify(t, targets))
      case Failure(e) => Some(Failure(e))
      case Success(u) => UnnestFrom(Pruned(u, targets), targets, fuel - 1)
  }

  /** One more pass of the loop: a pass that fails ends it with that failure,
      a pass that succeeds continues from the pruned result. */
  lemma UnnestFromStep(t: Table, targets: seq<string>, fuel: nat, rest: nat)
    requires t.Valid() && Classify(t, targets) != [] && fuel >= 1 && rest == fuel - 1
    ensures PassSpec(t, Classify(t, targets)).Failure? ==>
      UnnestFrom(t, targets, fuel) == Some(Failure(PassSpec(t, Classify(t, targets)).error))
    ensures PassSpec(t, Classify(t, targets)).Success? ==>
      UnnestFrom(t, targets, fuel) == UnnestFrom(Pruned(PassSpec(t, Classify(t, targets)).value, targets), targets, rest)
  {
  }

  /** Once the loop has finished within some number of passes, allowing more
      passes does not change its outcome. */
  lemma {:induction false} UnnestFuel(t: Table, targets: seq<string>, f: nat, g: nat)
    requires t.Valid() && UnnestFrom(t, targets, f).Some? && f <= g
    ensures UnnestFrom(t, targets, g) == UnnestFrom(t, targets, f)
    decreases f
  {
    if Classify(t, targets) != [] {
      var f1, g1 := f - 1, g - 1;
      UnnestFromStep(t, targets, f, f1);
      UnnestFromStep(t, targets, g, g1);
      var pass := PassSpec(t, Classify(t, targets));
      if pass.Success? {
        UnnestFuel(Pruned(pass.value, targets), targets, f1, g1);
      }
    }
  }

  /** What `_unnest` returns: prune, then pass after pass until the classifier
      reports nothing; the nesting depth of the pruned table bounds the passes. */
  ghost function UnnestSpec(t0: Table, targets: seq<string>): Option<Result<Table, Error>>
    requires t0.Valid()
  {
    var t := Pruned(t0, targets);
    UnnestFrom(t, targets, TableMax(t.rows, t.columns, targets))
  }

  lemma SpecStep(goal: Option<Result<Table, Error>>, targets: seq<string>, t: Table, bound: nat, e: Result<Table, Error>,
                 next: Table, nextBound: nat)
    requires t.Valid() && Classify(t, targets) != [] && bound >= 1 && nextBound == bound - 1
    requires goal == UnnestFrom(t, targets, bound)
    requires e == PassSpec(t, Classify(t, targets)) && e.Success? && next == Pruned(e.value, targets)
    ensures next.Valid() && goal == UnnestFrom(next, targets, nextBound)
  {
    UnnestFromStep(t, targets, bound, nextBound);
  }

  /** One step of the pass: explode a list column or lift a dict column. */
  method ExpandColumn(t: Table, col: string, tag: Tag, targets: seq<string>, ghost pending: set<string>, ghost b: nat)
    returns (r: Result<Table, Error>)
    requires t.Valid() && col in pending && (tag == DictTag ==> col !in targets)
    requires PassBounded(t.rows, targets, pending, b) && b >= 1
    ensures r == Expand(t, col, tag)
    ensures r.Success? ==> r.value.Valid() && PassBounded(r.value.rows, targets, pending - {col}, b)
  {
    if tag == ListTag {
      r := SplitDataframeList(t, col);
      if r.Success? {
        ExplodeStep(t.rows, col, targets, pending, b);
      }
    } else {
      r := LiftDict(t, col);
      if r.Success? {
        LiftStep(t, col, targets, pending, b);
      }
    }
  }

  /** One pass of the `for col, typ in cols.items()` loop. */
  method ExpandPass(t0: Table, cols: Nested, targets: seq<string>, ghost b: nat) returns (r: Result<Table, Error>)
    requires t0.Valid() && cols == Classify(t0, targets)
    requires Bounded(t0.rows, targets, b) && b >= 1
    ensures r == PassSpec(t0, cols)
    ensures r.Success? ==> Bounded(r.value.rows, targets, b - 1)
  {
    assert DistinctKeys(cols) && forall q :: 0 <= q < |cols| && cols[q].1 == DictTag ==> cols[q].0 !in targets by {
      ClassifyFacts(t0, targets);
    }
    StartPass(t0, targets, b);
    var t := t0;
    var p := 0;
    assert cols[0..] == cols;
    while p < |cols|
      invariant 0 <= p <= |cols|
      invariant t.Valid()
      invariant PassSpec(t0, cols) == PassSpec(t, cols[p..])
      invariant PassBounded(t.rows, targets, Pending(cols, p), b)
    {
      PendingStep(cols, p);
      assert cols[p..][0] == cols[p] && cols[p..][1..] == cols[p + 1..];
      var e := ExpandColumn(t, cols[p].0, cols[p].1, targets, Pending(cols, p), b);
      if e.Failure? {
        return e;
      }
      t := e.value;
      p := p + 1;
    }
    assert Pending(cols, p) == {};
    forall i, n | 0 <= i < |t.rows| && n in t.rows[i] ensures RelDepth(t.rows[i][n], n, targets) <= b - 1 {
      assert n !in Pending(cols, p);
    }
    return Success(t);
  }

  /** `_unnest`: flatten until the classifier reports nothing. */
  method Unnest(t0: Table, targets: seq<string>) returns (r: Result<Table, Error>)
    requires t0.Valid()
    ensures UnnestSpec(t0, targets) == Some(r)
    ensures r.Success? ==> r.value.Valid()
    ensures r.Success? ==> Classify(r.value, targets) == []
    ensures r.Success? && targets != [] ==> forall c :: c in r.value.columns ==> Wanted(c, targets)
    ensures r.Failure? ==> r.error.KeyError? || r.error == ValueError(AmbiguousTruthMessage)
    ensures targets == [] && Classify(t0, targets) == [] ==> r == Success(t0)
  {
    var t := t0;
    if targets != [] {
      t := ReduceColumns(t, targets);
    }
    assert t == Pruned(t0, targets);
    var cols := GetNestedColumns(t, targets);
    ghost var bound := TableMax(t.rows, t.columns, targets);
    ghost var goal := UnnestSpec(t0, targets);
    TableMaxBounds(t, targets);
    while |cols| > 0
      invariant t.Valid()
      invariant cols == Classify(t, targets)
      invariant Bounded(t.rows, targets, bound)
      invariant goal == UnnestFrom(t, targets, bound)
      invariant targets != [] ==> forall c :: c in t.columns ==> Wanted(c, targets)
      invariant targets == [] && Classify(t0, targets) == [] ==> t == t0
      decreases bound
    {
      TaggedNeedsBound(t, targets, bound);
      var e := ExpandPass(t, cols, targets, bound);
      if e.Failure? {
        return e;
      }
      ghost var before, beforeBound := t, bound;
      t := e.value;
      if targets != [] {
        var reduced := ReduceColumns(t, targets);
        assert Bounded(reduced.rows, targets, bound - 1) by {
          forall i, n | 0 <= i < |reduced.rows| && n in reduced.rows[i]
            ensures RelDepth(reduced.rows[i][n], n, targets) <= bound - 1
          {
            assert n in t.rows[i];
          }
        }
        t := reduced;
      }
      cols := GetNestedColumns(t, targets);
      bound := bound - 1;
      SpecStep(goal, targets, before, beforeBound, e, t, bound);
    }
    return Success(t);
  }

  /** The second half of `_json_to_df`: flatten the loaded table and collect
      the requested columns that did not come out (the source only prints
      that set; here it is returned beside the table). */
  method FlattenAndReport(t0: Table, columns: seq<string>) returns (r: Result<(Table, set<string>), Error>)
    requires t0.Valid()
    ensures r.Success? ==> UnnestSpec(t0, columns) == Some(Success(r.value.0))
    ensures r.Failure? ==> UnnestSpec(t0, columns) == Some(Failure(r.error))
    ensures r.Success? ==> r.value.0.Valid() && Classify(r.value.0, columns) == []
    ensures r.Success? ==> forall c :: c in r.value.1 <==> c in columns && c !in r.value.0.columns
    ensures r.Success? && columns != [] ==> forall c :: c in r.value.0.columns ==> Wanted(c, columns)
    ensures r.Failure? ==> r.error.KeyError? || r.error == ValueError(AmbiguousTruthMessage)
    ensures columns == [] && Classify(t0, columns) == [] ==> r == Success((t0, {}))
  {
    var flat := Unnest(t0, columns);
    if flat.Failure? {
      r := Failure(flat.error);
      assert flat == Failure(r.error);
      return;
    }
    var df := flat.value;
    assert flat == Success(df);
    var notFound := (set c | c in columns) - df.ColumnSet();
    assert columns == [] ==> notFound == {};
    r := Success((df, notFound));
  }

  /** `_json_to_df`: load the records, then flatten and report. */
  method JsonToDf(data: seq<Record>, columns: seq<string>) returns (r: Result<(Table, set<string>), Error>)
    ensures r.Success? ==> UnnestSpec(Load(data), columns) == Some(Success(r.value.0))
    ensures r.Failure? ==> UnnestSpec(Load(data), columns) == Some(Failure(r.error))
    ensures r.Success? ==> r.value.0.Valid() && Classify(r.value.0, columns) == []
    ensures r.Success? ==> forall c :: c in r.value.1 <==> c in columns && c !in r.value.0.columns
    ensures r.Success? && columns != [] ==> forall c :: c in r.value.0.columns ==> Wanted(c, columns)
    ensures r.Failure? ==> r.error.KeyError? || r.error == ValueError(AmbiguousTruthMessage)
    ensures columns == [] && Classify(Load(data), columns) == [] ==> r == Success((Load(data), {}))
  {
    r := FlattenAndReport(Load(data), columns);
  }
}
