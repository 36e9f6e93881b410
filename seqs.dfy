/** Order-preserving de-duplication of names, as Python's insertion-ordered
    dicts and pandas' column union produce them. */
module Seqs {
  predicate Distinct<T(==)>(xs: seq<T>) {
    forall i, j :: 0 <= i < j < |xs| ==> xs[i] != xs[j]
  }

  /** Appends, in order, every name of `xs` not already present. */
  function AddNew(acc: seq<string>, xs: seq<string>): (r: seq<string>)
    ensures Distinct(acc) ==> Distinct(r)
    ensures |acc| <= |r| && r[..|acc|] == acc
    ensures forall x :: x in r <==> x in acc || x in xs
    decreases |xs|
  {
    if xs == [] then acc
    else if xs[0] in acc then AddNew(acc, xs[1..])
    else AddNew(acc + [xs[0]], xs[1..])
  }

  function Dedup(xs: seq<string>): (r: seq<string>)
    ensures Distinct(r)
    ensures forall x :: x in r <==> x in xs
  {
    AddNew([], xs)
  }

  function MaxOf(xs: seq<nat>): (m: nat)
    ensures forall k :: 0 <= k < |xs| ==> xs[k] <= m
  {
    if xs == [] then 0
    else var rest := MaxOf(xs[1..]); if xs[0] < rest then rest else xs[0]
  }
}
