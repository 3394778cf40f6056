/** Searching sequences, as JavaScript's `indexOf` and `includes` do with
    strict equality. */
module Seqs {

  /** The first index at which `x` occurs in `s`, or -1 (`indexOf`). */
  function IndexOf<T(==)>(s: seq<T>, x: T): (r: int)
    ensures -1 <= r < |s|
    ensures r >= 0 ==> s[r] == x
    ensures r < 0 ==> forall j :: 0 <= j < |s| ==> s[j] != x
    ensures forall j :: 0 <= j < r ==> s[j] != x
  {
    if |s| == 0 then -1
    else if s[0] == x then 0
    else
      var r := IndexOf(s[1..], x);
      if r < 0 then -1 else r + 1
  }

  /** `indexOf` finds an element exactly when `includes` holds. */
  lemma IndexOfFinds<T>(s: seq<T>, x: T)
    ensures IndexOf(s, x) >= 0 <==> x in s
  {
  }

  /** No element occurs twice. */
  predicate NoDuplicates<T(==)>(s: seq<T>) {
    forall i, j :: 0 <= i < j < |s| ==> s[i] != s[j]
  }
}
