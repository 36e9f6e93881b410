/** The DataFrame the flattener works on: named columns in order, and one row
    per record, each row seen as the `row.to_dict()` mapping from column label
    to cell. */
module Frame {
  import opened Json
  import opened Seqs

  type Row = map<string, Value>

  datatype Table = Table(columns: seq<string>, rows: seq<Row>) {
    function ColumnSet(): set<string> {
      set c | c in columns
    }

    /** Column labels are unique and every row has exactly the table's columns. */
    predicate Valid() {
      && Distinct(columns)
      && forall i :: 0 <= i < |rows| ==> rows[i].Keys == ColumnSet()
    }
  }

  /** The cell of `row` under `col`, or Null where pandas would hold NaN. */
  function CellOr(row: Row, col: string): Value {
    if col in row then row[col] else Null
  }

  function Filter(cols: seq<string>, keep: set<string>): (r: seq<string>)
    ensures forall c :: c in r <==> c in cols && c in keep
    ensures Distinct(cols) ==> Distinct(r)
  {
    if cols == [] then []
    else (if cols[0] in keep then [cols[0]] else []) + Filter(cols[1..], keep)
  }

  /** `df[list(keep)]`: the columns in `keep`, every row kept with its cells. */
  function Project(t: Table, keep: set<string>): (r: Table)
    requires t.Valid()
    ensures r.Valid()
    ensures |r.rows| == |t.rows|
    ensures forall c :: c in r.columns <==> c in t.columns && c in keep
    ensures forall i, c :: 0 <= i < |r.rows| && c in r.rows[i] ==> c in t.rows[i] && r.rows[i][c] == t.rows[i][c]
  {
    var cols := Filter(t.columns, keep);
    var rows := seq(|t.rows|, i requires 0 <= i < |t.rows| => map c | c in t.rows[i] && c in keep :: t.rows[i][c]);
    var r := Table(cols, rows);
    assert forall i :: 0 <= i < |rows| ==> rows[i].Keys == r.ColumnSet() by {
      forall i | 0 <= i < |rows| ensures rows[i].Keys == r.ColumnSet() {
        assert t.rows[i].Keys == t.ColumnSet();
      }
    }
    r
  }
}
