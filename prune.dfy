/** Column pruning (`_reduce_columns`, reagan/subclass.py): keep only the
    columns that some requested final column can still be reached from. */
module Prune {
  import opened Frame
  import opened Text

  /** `col` is an `_`-joined run of leading fields of some target, the target itself included. */
  predicate Wanted(col: string, targets: seq<string>) {
    exists j :: 0 <= j < |targets| && IsPathPrefix(col, targets[j], '_')
  }

  /** `"_".join(split_col[0 : k + 1])`. */
  function PrefixName(parts: seq<string>, k: nat): string
    requires k < |parts|
  {
    Join(parts[..k + 1], '_')
  }

  /** The leading-field prefixes the source builds, `"_".join(split_col[0 : i + 1])`,
      are exactly the path prefixes of the target. */
  lemma JoinedPrefixesArePathPrefixes(target: string, c: string)
    ensures (exists k :: 0 <= k < |Split(target, '_')| && c == PrefixName(Split(target, '_'), k))
            <==> IsPathPrefix(c, target, '_')
  {
    var parts := Split(target, '_');
    if exists k :: 0 <= k < |parts| && c == PrefixName(parts, k) {
      var k :| 0 <= k < |parts| && c == PrefixName(parts, k);
      JoinedPrefixIsPathPrefix(target, '_', k);
    }
    if IsPathPrefix(c, target, '_') {
      var k := PathPrefixIsJoinedPrefix(target, '_', c);
      assert c == PrefixName(parts, k);
    }
  }

  /** The columns of `t` that some target can still be reached from. */
  function WantedColumns(t: Table, targets: seq<string>): set<string> {
    set c | c in t.columns && Wanted(c, targets)
  }

  method ReduceColumns(t: Table, targets: seq<string>) returns (r: Table)
    requires t.Valid()
    ensures r == Project(t, WantedColumns(t, targets))
    ensures r.Valid()
    ensures |r.rows| == |t.rows|
    ensures forall c :: c in r.columns <==> c in t.columns && Wanted(c, targets)
    ensures forall i, c :: 0 <= i < |r.rows| && c in r.rows[i] ==> c in t.rows[i] && r.rows[i][c] == t.rows[i][c]
  {
    var current := t.ColumnSet();
    var keep: set<string> := {};
    var ti := 0;
    while ti < |targets|
      invariant 0 <= ti <= |targets|
      invariant forall c :: c in keep <==> c in current && Wanted(c, targets[..ti])
    {
      var parts := Split(targets[ti], '_');
      var i := 0;
      while i < |parts|
        invariant 0 <= i <= |parts|
        invariant forall c :: c in keep <==>
          (c in current && (Wanted(c, targets[..ti]) || exists k :: 0 <= k < i && c == PrefixName(parts, k)))
      {
        var name := PrefixName(parts, i);
        if name in current {
          keep := keep + {name};
        }
        i := i + 1;
      }
      forall c ensures Wanted(c, targets[..ti + 1]) <==> Wanted(c, targets[..ti]) || IsPathPrefix(c, targets[ti], '_') {
        JoinedPrefixesArePathPrefixes(targets[ti], c);
        assert targets[..ti + 1][ti] == targets[ti];
        if Wanted(c, targets[..ti + 1]) {
          var j :| 0 <= j < ti + 1 && IsPathPrefix(c, targets[..ti + 1][j], '_');
          if j < ti {
            assert targets[..ti][j] == targets[..ti + 1][j];
          }
        }
        if Wanted(c, targets[..ti]) {
          var j :| 0 <= j < ti && IsPathPrefix(c, targets[..ti][j], '_');
          assert targets[..ti + 1][j] == targets[..ti][j];
        }
      }
      forall c ensures (exists k :: 0 <= k < |parts| && c == PrefixName(parts, k)) <==> IsPathPrefix(c, targets[ti], '_') {
        JoinedPrefixesArePathPrefixes(targets[ti], c);
        if exists k :: 0 <= k < |parts| && c == PrefixName(parts, k) {
          var k :| 0 <= k < |parts| && c == PrefixName(parts, k);
          assert c == PrefixName(Split(targets[ti], '_'), k);
        }
      }
      ti := ti + 1;
    }
    assert targets[..ti] == targets;
    assert keep == WantedColumns(t, targets);
    r := Project(t, keep);
  }
}
