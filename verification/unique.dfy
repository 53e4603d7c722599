/** Distinct values of a column in order of first appearance (pandas `dropna().unique()`). */
module Unique {
  import opened Wrappers

  /** No value occurs twice. */
  predicate NoDuplicates<T(==)>(s: seq<T>) {
    forall i, j :: 0 <= i < j < |s| ==> s[i] != s[j]
  }

  /** Index of the first occurrence of `x` in `vals`. */
  function FirstIndex<T(==)>(vals: seq<T>, x: T): (i: nat)
    requires x in vals
    ensures i < |vals| && vals[i] == x
    ensures forall j :: 0 <= j < i ==> vals[j] != x
  {
    if vals[0] == x then 0 else 1 + FirstIndex(vals[1..], x)
  }

  /** The distinct non-null values of `vals`, each once, ordered by where it first occurs. */
  function Distinct<T(==,!new)>(vals: seq<Option<T>>): (r: seq<T>)
    ensures NoDuplicates(r)
    ensures forall x :: x in r <==> Some(x) in vals
    ensures forall i, j :: 0 <= i < j < |r| ==>
              FirstIndex(vals, Some(r[i])) < FirstIndex(vals, Some(r[j]))
  {
    if |vals| == 0 then []
    else
      var init := vals[..|vals| - 1];
      var prev := Distinct(init);
      assert vals == init + [vals[|vals| - 1]];
      match vals[|vals| - 1]
      case None => prev
      case Some(k) => if k in prev then prev else prev + [k]
  }
}
