/** The object-specific parts of `ObjectValidator`
    (8/validators/object-validator.ts): which inputs count as objects, how a
    field is read, the `"key: "` prefix and the projected output record. */
module ObjectValidator {
  import opened Wrappers
  import opened JsValues
  import opened ValidationResults
  import opened Aggregation

  const OBJECT_ERROR: string := "Value must be an object"

  /** `typeof value === 'object' && value !== null && !Array.isArray(value)`:
      plain objects, Dates and other objects such as boxed primitives. */
  predicate IsObjectLike(x: JsValue) {
    x.Obj? || x.DateVal? || (x.Foreign? && x.typeofObject)
  }

  /** `obj[key]`: the field's value, or `undefined` when the key is missing. */
  function Lookup(x: JsValue, key: string): JsValue {
    if x.Obj? && key in x.fields then x.fields[key] else Undef
  }

  function FieldPrefix(key: string): string {
    key + ": "
  }

  function FieldPrefixes(keys: seq<string>): (ps: seq<string>)
    ensures |ps| == |keys|
  {
    seq(|keys|, i requires 0 <= i < |keys| => FieldPrefix(keys[i]))
  }

  /** The output record the loop builds: `result[key] = data` for every field
      that succeeded, in schema order. */
  function Record(keys: seq<string>, rs: seq<ValidationResult>): map<string, JsValue>
    requires |keys| == |rs|
  {
    if |rs| == 0 then map[]
    else
      var n := |rs| - 1;
      var m := Record(keys[..n], rs[..n]);
      if rs[n].success then m[keys[n] := DataOf(rs[n])] else m
  }

  /** The end of `ObjectValidator.validate` once every field has been
      validated: it succeeds exactly when every field did, with the record of
      field data, and otherwise fails with the errors collected behind their
      keys. */
  function Combine(keys: seq<string>, rs: seq<ValidationResult>): (r: ValidationResult)
    requires |keys| == |rs|
    ensures WellFormed(r)
    ensures AllWellFormed(rs) ==> (r.success <==> AllSucceed(rs))
    ensures r.success ==> r.data == Some(Obj(Record(keys, rs)))
    ensures !r.success ==> r.errors == Some(Collect(FieldPrefixes(keys), rs))
  {
    var r := Conclude(Collect(FieldPrefixes(keys), rs), Obj(Record(keys, rs)));
    if AllWellFormed(rs) then CollectEmptyIffAllSucceed(FieldPrefixes(keys), rs); r else r
  }

  /** Schema keys come from an object literal, so they are distinct. */
  predicate DistinctKeys(keys: seq<string>) {
    forall i, j :: 0 <= i < j < |keys| ==> keys[i] != keys[j]
  }

  /** Every prefix of a list of distinct keys has distinct keys, and every
      prefix of a list of successes holds only successes. */
  lemma PrefixesKeepShape(keys: seq<string>, rs: seq<ValidationResult>, n: nat)
    requires n <= |keys| == |rs| && DistinctKeys(keys) && AllSucceed(rs)
    ensures DistinctKeys(keys[..n]) && AllSucceed(rs[..n])
  {
    var kf, rf := keys[..n], rs[..n];
    forall i, j | 0 <= i < j < |kf|
      ensures kf[i] != kf[j]
    {
      assert kf[i] == keys[i] && kf[j] == keys[j];
    }
    forall i | 0 <= i < |rf|
      ensures rf[i].success
    {
      assert rf[i] == rs[i];
    }
  }

  /** When every field succeeds, the output holds exactly the schema keys. */
  lemma {:induction false} RecordKeys(keys: seq<string>, rs: seq<ValidationResult>)
    requires |keys| == |rs|
    requires AllSucceed(rs)
    ensures Record(keys, rs).Keys == set k | k in keys
  {
    if |rs| > 0 {
      var n := |rs| - 1;
      assert AllSucceed(rs[..n]) by {
        forall i | 0 <= i < n
          ensures rs[..n][i].success
        {
          assert rs[..n][i] == rs[i];
        }
      }
      RecordKeys(keys[..n], rs[..n]);
      assert keys == keys[..n] + [keys[n]];
    }
  }

  /** When every field succeeds, each schema key maps to its field's
      validated data. */
  lemma {:induction false} RecordValues(keys: seq<string>, rs: seq<ValidationResult>)
    requires |keys| == |rs|
    requires DistinctKeys(keys)
    requires AllSucceed(rs)
    ensures forall i :: 0 <= i < |keys| ==> keys[i] in Record(keys, rs)
    ensures forall i :: 0 <= i < |keys| ==> Record(keys, rs)[keys[i]] == DataOf(rs[i])
  {
    if |rs| > 0 {
      var n := |rs| - 1;
      var kf, rf := keys[..n], rs[..n];
      PrefixesKeepShape(keys, rs, n);
      RecordValues(kf, rf);
      assert Record(keys, rs) == Record(kf, rf)[keys[n] := DataOf(rs[n])];
      forall i | 0 <= i < n
        ensures keys[i] in Record(keys, rs) && Record(keys, rs)[keys[i]] == DataOf(rs[i])
      {
        assert kf[i] == keys[i] && rf[i] == rs[i] && keys[i] != keys[n];
      }
    }
  }

  /** When every field succeeds, the output holds exactly the schema keys,
      each mapped to its field's validated data; other input keys are dropped. */
  lemma RecordProjects(keys: seq<string>, rs: seq<ValidationResult>)
    requires |keys| == |rs|
    requires DistinctKeys(keys)
    requires AllSucceed(rs)
    ensures Record(keys, rs).Keys == set k | k in keys
    ensures forall i :: 0 <= i < |keys| ==> Record(keys, rs)[keys[i]] == DataOf(rs[i])
  {
    RecordKeys(keys, rs);
    RecordValues(keys, rs);
  }
}
