/** `pd.DataFrame(data)` followed by the `.` to `_` rename of the column labels
    (reagan/subclass.py, `_json_to_df`). */
module Loader {
  import opened Json
  import opened Seqs
  import opened Frame

  /** `key.replace(".", "_")`. */
  function RenameKey(key: string): (r: string)
    ensures |r| == |key| && '.' !in r
    ensures '.' !in key ==> r == key
  {
    seq(|key|, i requires 0 <= i < |key| => if key[i] == '.' then '_' else key[i])
  }

  /** Some key of `rec` is renamed to `col`. */
  predicate HasColumn(rec: Record, col: string) {
    exists k :: 0 <= k < |rec| && RenameKey(rec[k].0) == col
  }

  function RecordColumns(rec: Record): (cs: seq<string>)
    ensures forall c :: c in cs <==> HasColumn(rec, c)
  {
    var cs := seq(|rec|, k requires 0 <= k < |rec| => RenameKey(rec[k].0));
    assert forall c :: c in cs ==> HasColumn(rec, c) by {
      forall c | c in cs ensures HasColumn(rec, c) {
        var k :| 0 <= k < |cs| && cs[k] == c;
      }
    }
    assert forall c :: HasColumn(rec, c) ==> c in cs by {
      forall c | HasColumn(rec, c) ensures c in cs {
        var k :| 0 <= k < |rec| && RenameKey(rec[k].0) == c;
        assert cs[k] == c;
      }
    }
    cs
  }

  /** The union of the (renamed) keys of all records, in first-seen order. */
  function LoadColumns(records: seq<Record>): (cs: seq<string>)
    ensures Distinct(cs)
    ensures forall c :: c in cs <==> exists i :: 0 <= i < |records| && HasColumn(records[i], c)
  {
    if records == [] then []
    else
      var front := records[..|records| - 1];
      var cs := AddNew(LoadColumns(front), RecordColumns(records[|records| - 1]));
      assert forall c :: c in cs ==> exists i :: 0 <= i < |records| && HasColumn(records[i], c) by {
        forall c | c in cs ensures exists i :: 0 <= i < |records| && HasColumn(records[i], c) {
          if c !in LoadColumns(front) {
            assert HasColumn(records[|records| - 1], c);
          } else {
            var i :| 0 <= i < |front| && HasColumn(front[i], c);
            assert records[i] == front[i];
          }
        }
      }
      assert forall c :: (exists i :: 0 <= i < |records| && HasColumn(records[i], c)) ==> c in cs by {
        forall c | exists i :: 0 <= i < |records| && HasColumn(records[i], c) ensures c in cs {
          var i :| 0 <= i < |records| && HasColumn(records[i], c);
          if i < |front| {
            assert front[i] == records[i];
          }
        }
      }
      cs
  }

  /** The record's value for column `col`, or Null (pandas' NaN) when it has no such key. */
  function LoadCell(rec: Record, col: string): (v: Value)
    ensures !HasColumn(rec, col) ==> v == Null
    ensures forall k :: 0 <= k < |rec| && RenameKey(rec[k].0) == col && (forall j :: 0 <= j < k ==> RenameKey(rec[j].0) != col) ==> v == rec[k].1
  {
    if rec == [] then Null
    else if RenameKey(rec[0].0) == col then rec[0].1
    else
      var v := LoadCell(rec[1..], col);
      assert forall k :: 0 < k < |rec| && RenameKey(rec[k].0) == col ==> HasColumn(rec[1..], col) by {
        forall k | 0 < k < |rec| && RenameKey(rec[k].0) == col ensures HasColumn(rec[1..], col) {
          assert rec[1..][k - 1] == rec[k];
        }
      }
      v
  }

  /** One row per record and one column per top-level key seen in any record. */
  function Load(records: seq<Record>): (t: Table)
    ensures t.Valid()
    ensures |t.rows| == |records|
    ensures forall c :: c in t.columns ==> '.' !in c
    ensures forall c :: c in t.columns <==> exists i :: 0 <= i < |records| && HasColumn(records[i], c)
    ensures forall i, c :: 0 <= i < |records| && c in t.columns ==> t.rows[i][c] == LoadCell(records[i], c)
  {
    var cols := LoadColumns(records);
    var rows := seq(|records|, i requires 0 <= i < |records| => map c | c in cols :: LoadCell(records[i], c));
    assert forall c :: c in cols ==> '.' !in c by {
      forall c | c in cols ensures '.' !in c {
        var i :| 0 <= i < |records| && HasColumn(records[i], c);
        var k :| 0 <= k < |records[i]| && RenameKey(records[i][k].0) == c;
      }
    }
    Table(cols, rows)
  }
}
