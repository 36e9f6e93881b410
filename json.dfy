/** The decoded JSON values that the API wrappers hand to the flattener. */
module Json {
  import opened Wrappers
  import opened Seqs

  /** A dict is kept as its entries in insertion order; keys are unique in the
      Python dicts this stands for, and lookups read the first entry of a key. */
  datatype Value =
    | Null
    | Str(s: string)
    | Num(n: int)
    | Bool(b: bool)
    | List(items: seq<Value>)
    | Dict(entries: seq<(string, Value)>)

  type Record = seq<(string, Value)>

  function EntryKeys(entries: seq<(string, Value)>): (ks: seq<string>)
    ensures |ks| == |entries|
    ensures forall k :: 0 <= k < |entries| ==> ks[k] == entries[k].0
  {
    seq(|entries|, k requires 0 <= k < |entries| => entries[k].0)
  }

  /** The keys of a dict, each once, in insertion order (what iterating a Python dict yields). */
  function DictKeys(entries: seq<(string, Value)>): (ks: seq<string>)
    ensures Distinct(ks)
    ensures forall key :: key in ks <==> exists k :: 0 <= k < |entries| && entries[k].0 == key
  {
    var all := EntryKeys(entries);
    assert forall key :: key in all <==> exists k :: 0 <= k < |entries| && entries[k].0 == key by {
      forall key | key in all ensures exists k :: 0 <= k < |entries| && entries[k].0 == key {
        var k :| 0 <= k < |all| && all[k] == key;
      }
    }
    Dedup(all)
  }

  function DictGet(entries: seq<(string, Value)>, key: string): (r: Option<Value>)
    ensures r.None? <==> forall k :: 0 <= k < |entries| ==> entries[k].0 != key
    ensures r.Some? ==> exists k :: 0 <= k < |entries| && entries[k] == (key, r.value)
  {
    if entries == [] then None
    else if entries[0].0 == key then Some(entries[0].1)
    else DictGet(entries[1..], key)
  }

  /** Nesting depth: scalars are 0, a list or dict is one more than its deepest element. */
  function Depth(v: Value): nat
  {
    match v
    case List(items) => 1 + MaxOf(seq(|items|, k requires 0 <= k < |items| => Depth(items[k])))
    case Dict(entries) => 1 + MaxOf(seq(|entries|, k requires 0 <= k < |entries| => Depth(entries[k].1)))
    case _ => 0
  }

  lemma ListElementShallower(items: seq<Value>, k: nat)
    requires k < |items|
    ensures Depth(items[k]) < Depth(List(items))
  {
    var ds := seq(|items|, j requires 0 <= j < |items| => Depth(items[j]));
    assert ds[k] == Depth(items[k]);
  }

  lemma DictValueShallower(entries: seq<(string, Value)>, k: nat)
    requires k < |entries|
    ensures Depth(entries[k].1) < Depth(Dict(entries))
  {
    var ds := seq(|entries|, j requires 0 <= j < |entries| => Depth(entries[j].1));
    assert ds[k] == Depth(entries[k].1);
  }
}
