/** Query text preparation (`_format_query`, reagan/subclass.py): pick the
    query from a `.sql` file or take it literally, then substitute each
    replacement key by its value's `str()` in turn. */
module Query {
  import opened Text
  import opened Decimal
  import opened Wrappers

  /** The replacement values the query helpers are given. */
  datatype Scalar = PyStr(s: string) | PyInt(n: int) | PyBool(b: bool) | PyNone

  /** Python's `str(value)`: an int's text reads back as that int, while the
      text of a bool or of `None` is no integer literal. */
  function Show(v: Scalar): (r: string)
    ensures v.PyStr? ==> r == v.s
    ensures v.PyInt? ==> ParseInt(r) == Success(v.n)
    ensures v.PyBool? || v.PyNone? ==> ParseInt(r).Failure?
  {
    match v
    case PyStr(s) => s
    case PyInt(n) => ParseShowInt(n); ShowInt(n)
    case PyBool(b) => if b then "True" else "False"
    case PyNone => "None"
  }

  /** `query_input.split(".")[-1] == "sql"`. */
  predicate IsSqlPath(s: string) {
    LastField(s, '.') == "sql"
  }

  /** The input is read as a file exactly when it is `sql` or ends in `.sql`. */
  lemma SqlPathSuffix(s: string)
    ensures IsSqlPath(s) <==> s == "sql" || EndsWith(s, ".sql")
  {
    LastFieldIs(s, "sql");
  }

  /** The query after the replacements, applied one after another in dict order. */
  function ApplyReplacements(query: string, replacements: seq<(string, Scalar)>): string {
    if replacements == [] then query
    else
      var last := replacements[|replacements| - 1];
      ReplaceAll(ApplyReplacements(query, replacements[..|replacements| - 1]), last.0, Show(last.1))
  }

  /** Substitution is sequential: a later key also rewrites the text an
      earlier value introduced. */
  lemma {:induction false} ApplyReplacementsAppend(query: string, a: seq<(string, Scalar)>, b: seq<(string, Scalar)>)
    ensures ApplyReplacements(query, a + b) == ApplyReplacements(ApplyReplacements(query, a), b)
    decreases |b|
  {
    if b == [] {
      assert a + b == a;
    } else {
      assert (a + b)[..|a + b| - 1] == a + b[..|b| - 1];
      ApplyReplacementsAppend(query, a, b[..|b| - 1]);
    }
  }

  /** Keys that do not occur in the query leave it unchanged. */
  lemma {:induction false} ApplyAbsentKeys(query: string, replacements: seq<(string, Scalar)>)
    requires forall k :: 0 <= k < |replacements| ==> replacements[k].0 != [] && !Occurs(replacements[k].0, query)
    ensures ApplyReplacements(query, replacements) == query
  {
    if replacements != [] {
      var front := replacements[..|replacements| - 1];
      assert forall k :: 0 <= k < |front| ==> front[k] == replacements[k];
      ApplyAbsentKeys(query, front);
      ReplaceAbsent(query, replacements[|replacements| - 1].0, Show(replacements[|replacements| - 1].1));
    }
  }

  /** The text of a query file with every stray `Â` removed. */
  function CleanFileText(fileText: string): (query: string)
    ensures 'Â' !in query
  {
    RemoveChar(fileText, 'Â');
    ReplaceAll(fileText, "Â", "")
  }

  /** `_format_query`; `fileText` stands for what reading `queryInput` as a
      file returns, and is used only when `queryInput` names a `.sql` file. */
  method FormatQuery(queryInput: string, fileText: string, replacements: seq<(string, Scalar)>) returns (query: string)
    ensures query == ApplyReplacements(if IsSqlPath(queryInput) then CleanFileText(fileText) else queryInput, replacements)
    ensures !IsSqlPath(queryInput) && replacements == [] ==> query == queryInput
    ensures IsSqlPath(queryInput) && replacements == [] ==> 'Â' !in query
  {
    if LastField(queryInput, '.') == "sql" {
      query := ReplaceAll(fileText, "Â", "");
    } else {
      query := queryInput;
    }
    ghost var base := query;
    var i := 0;
    while i < |replacements|
      invariant 0 <= i <= |replacements|
      invariant query == ApplyReplacements(base, replacements[..i])
    {
      var (key, value) := replacements[i];
      query := ReplaceAll(query, key, Show(value));
      assert replacements[..i + 1][..i] == replacements[..i];
      i := i + 1;
    }
    assert replacements[..i] == replacements;
  }
}
