/** The array-specific parts of `ArrayValidator`
    (8/validators/array-validator.ts): the `"[i]: "` prefix and the output
    sequence of validated elements. */
module ArrayValidator {
  import opened Text
  import opened Wrappers
  import opened JsValues
  import opened ValidationResults
  import opened Aggregation

  const ARRAY_ERROR: string := "Value must be an array"

  /** `` `[${i}]: ` `` */
  function IndexPrefix(i: nat): string {
    "[" + NatToString(i) + "]: "
  }

  function IndexPrefixes(n: nat): (ps: seq<string>)
    ensures |ps| == n
  {
    seq(n, i requires 0 <= i < n => IndexPrefix(i))
  }

  /** Different indices get different prefixes, so an error names its element
      unambiguously. */
  lemma IndexPrefixInjective(i: nat, j: nat)
    ensures IndexPrefix(i) == IndexPrefix(j) ==> i == j
  {
    var a, b := NatToString(i), NatToString(j);
    if IndexPrefix(i) == IndexPrefix(j) {
      assert |a| == |b|;
      assert a == IndexPrefix(i)[1..1 + |a|];
      assert b == IndexPrefix(j)[1..1 + |b|];
      NatToStringInjective(i, j);
    }
  }

  /** The output the loop builds: `result.push(data)` for every element that
      succeeded, in index order. */
  function Successes(rs: seq<ValidationResult>): seq<JsValue> {
    if |rs| == 0 then []
    else Successes(rs[..|rs| - 1]) + (if rs[|rs| - 1].success then [DataOf(rs[|rs| - 1])] else [])
  }

  /** The end of `ArrayValidator.validate` once every element has been
      validated: it succeeds exactly when every element did, with the
      elements' data in order, and otherwise fails with the errors collected
      behind their indices. */
  function Combine(rs: seq<ValidationResult>): (r: ValidationResult)
    ensures WellFormed(r)
    ensures AllWellFormed(rs) ==> (r.success <==> AllSucceed(rs))
    ensures r.success && AllWellFormed(rs) ==>
      r.data.value.Arr? && |r.data.value.items| == |rs|
      && forall i :: 0 <= i < |rs| ==> r.data.value.items[i] == DataOf(rs[i])
    ensures !r.success ==> r.errors == Some(Collect(IndexPrefixes(|rs|), rs))
  {
    var r := Conclude(Collect(IndexPrefixes(|rs|), rs), Arr(Successes(rs)));
    if AllWellFormed(rs) then
      CollectEmptyIffAllSucceed(IndexPrefixes(|rs|), rs);
      if AllSucceed(rs) then SuccessesKeepOrder(rs); r else r
    else r
  }

  /** When every element succeeds, the output keeps the input's length and
      order: element `i` is the data validated from element `i`. */
  lemma {:induction false} SuccessesKeepOrder(rs: seq<ValidationResult>)
    requires AllSucceed(rs)
    ensures |Successes(rs)| == |rs|
    ensures forall i :: 0 <= i < |rs| ==> Successes(rs)[i] == DataOf(rs[i])
  {
    if |rs| > 0 {
      var n := |rs| - 1;
      assert AllSucceed(rs[..n]);
      SuccessesKeepOrder(rs[..n]);
      forall i | 0 <= i < n
        ensures Successes(rs)[i] == DataOf(rs[i])
      {
        assert rs[..n][i] == rs[i];
      }
    }
  }
}
