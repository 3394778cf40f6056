/** Properties of the whole validation engine: acceptance against an
    independent description of what each validator requires, the object and
    array aggregation rules, and the optional wrapper. */
module ValidationProperties {
  import opened Text
  import opened JsValues
  import opened ValidationResults
  import opened Aggregation
  import opened Engine
  import StringValidator
  import NumberValidator
  import DateValidator
  import ObjectValidator
  import ArrayValidator

  /** What it means for a value to satisfy a validator, stated declaratively:
      containers require every field or element to be acceptable, with no
      mention of error lists or of the order in which things are checked. */
  predicate Accepts(h: Host, v: Validator, x: JsValue)
    decreases v
  {
    match v
    case StringV(c) => x.Str? && StringValidator.Satisfies(h.matches, c, x.s)
    case NumberV(c) =>
      NumberValidator.IsNumber(x) && NumberValidator.AtLeastMin(c, x.n) && NumberValidator.AtMostMax(c, x.n)
    case BooleanV(_) => x.Bool?
    case DateV(_) => DateValidator.IsValidDate(h.parseDate, x)
    case ObjectV(schema) =>
      && ObjectValidator.IsObjectLike(x)
      && forall i :: 0 <= i < |schema| ==> Accepts(h, schema[i].1, ObjectValidator.Lookup(x, schema[i].0))
    case ArrayV(item) =>
      x.Arr? && forall i :: 0 <= i < |x.items| ==> Accepts(h, item, x.items[i])
    case OptionalV(inner) => x.Undef? || x.Null? || Accepts(h, inner, x)
  }

  /** `validate` succeeds exactly on the values the validator accepts. */
  lemma {:induction false} ValidateSucceedsIffAccepts(h: Host, v: Validator, x: JsValue)
    ensures Validate(h, v, x).success <==> Accepts(h, v, x)
    decreases v
  {
    match v
    case ObjectV(schema) =>
      if ObjectValidator.IsObjectLike(x) {
        var rs := FieldResults(h, schema, x);
        forall i | 0 <= i < |schema|
          ensures rs[i].success <==> Accepts(h, schema[i].1, ObjectValidator.Lookup(x, schema[i].0))
        {
          ValidateSucceedsIffAccepts(h, schema[i].1, ObjectValidator.Lookup(x, schema[i].0));
        }
        CollectEmptyIffAllSucceed(ObjectValidator.FieldPrefixes(Keys(schema)), rs);
      }
    case ArrayV(item) =>
      if x.Arr? {
        var rs := ItemResults(h, item, x.items);
        forall i | 0 <= i < |x.items|
          ensures rs[i].success <==> Accepts(h, item, x.items[i])
        {
          ValidateSucceedsIffAccepts(h, item, x.items[i]);
        }
        CollectEmptyIffAllSucceed(ArrayValidator.IndexPrefixes(|x.items|), rs);
      }
    case OptionalV(inner) =>
      if !x.Undef? && !x.Null? {
        ValidateSucceedsIffAccepts(h, inner, x);
      }
    case _ =>
  }

  // ---------------------------------------------------------------- objects

  /** Anything that is not a non-null, non-array object fails with exactly one
      structural error, whatever the schema. */
  lemma ObjectRejectsNonObjects(h: Host, schema: seq<(string, Validator)>, x: JsValue)
    ensures !ObjectValidator.IsObjectLike(x) ==>
      Validate(h, ObjectV(schema), x) == Fail([ObjectValidator.OBJECT_ERROR])
    ensures x.Null? || x.Undef? || x.Arr? || x.Str? || x.Num? || x.Bool? ==> !ObjectValidator.IsObjectLike(x)
  {
  }

  /** Every field is validated, against the input's value for that key (or
      `undefined`), with no short-circuit: the object fails iff some field
      fails, and its errors are all the fields' prefixed errors in schema order. */
  lemma ObjectChecksEveryField(h: Host, schema: seq<(string, Validator)>, x: JsValue)
    requires ObjectValidator.IsObjectLike(x)
    ensures var r := Validate(h, ObjectV(schema), x);
      var rs := FieldResults(h, schema, x);
      && (r.success <==> AllSucceed(rs))
      && ErrorsOf(r) == Collect(ObjectValidator.FieldPrefixes(Keys(schema)), rs)
  {
    var rs := FieldResults(h, schema, x);
    CollectEmptyIffAllSucceed(ObjectValidator.FieldPrefixes(Keys(schema)), rs);
  }

  /** An object's errors are exactly its failing fields' errors, each behind
      `"key: "`; nested objects therefore give chains such as `"a: b: ..."`. */
  lemma ObjectErrorsArePathQualified(h: Host, schema: seq<(string, Validator)>, x: JsValue, e: string)
    requires ObjectValidator.IsObjectLike(x)
    ensures var rs := FieldResults(h, schema, x);
      e in ErrorsOf(Validate(h, ObjectV(schema), x)) <==>
        exists i, j :: 0 <= i < |schema| && !rs[i].success && 0 <= j < |ErrorsOf(rs[i])|
                       && e == schema[i].0 + ": " + ErrorsOf(rs[i])[j]
  {
    var rs := FieldResults(h, schema, x);
    var ps := ObjectValidator.FieldPrefixes(Keys(schema));
    ObjectChecksEveryField(h, schema, x);
    CollectMembership(ps, rs, e);
    assert forall i :: 0 <= i < |schema| ==> ps[i] == schema[i].0 + ": ";
  }

  /** The number of errors is the sum of the failing fields' error counts, so
      k failing fields give at least k errors. */
  lemma ObjectErrorCount(h: Host, schema: seq<(string, Validator)>, x: JsValue)
    requires ObjectValidator.IsObjectLike(x)
    ensures var rs := FieldResults(h, schema, x);
      && |ErrorsOf(Validate(h, ObjectV(schema), x))| == ErrorTotal(rs)
      && ErrorTotal(rs) >= FailureCount(rs)
  {
    var rs := FieldResults(h, schema, x);
    ObjectChecksEveryField(h, schema, x);
    CollectCount(ObjectValidator.FieldPrefixes(Keys(schema)), rs);
  }

  /** On success the output is a new object holding exactly the schema's keys,
      each mapped to that field's validated data; undeclared keys are dropped. */
  lemma ObjectOutputProjects(h: Host, schema: seq<(string, Validator)>, x: JsValue)
    requires ObjectValidator.DistinctKeys(Keys(schema))
    ensures var r := Validate(h, ObjectV(schema), x);
      var rs := FieldResults(h, schema, x);
      r.success ==>
        && r.data.Some? && r.data.value.Obj?
        && r.data.value.fields.Keys == (set k | k in Keys(schema))
        && forall i :: 0 <= i < |schema| ==> r.data.value.fields[schema[i].0] == DataOf(rs[i])
  {
    var r := Validate(h, ObjectV(schema), x);
    if r.success {
      var rs := FieldResults(h, schema, x);
      ObjectChecksEveryField(h, schema, x);
      ObjectValidator.RecordProjects(Keys(schema), rs);
    }
  }

  /** The empty schema accepts every object and outputs `{}`. */
  lemma EmptySchemaAcceptsObjects(h: Host, x: JsValue)
    requires ObjectValidator.IsObjectLike(x)
    ensures Validate(h, ObjectV([]), x) == Pass(Obj(map[]))
  {
    var rs := FieldResults(h, [], x);
    assert Collect(ObjectValidator.FieldPrefixes(Keys([])), rs) == [];
  }

  // ----------------------------------------------------------------- arrays

  lemma ArrayRejectsNonArrays(h: Host, item: Validator, x: JsValue)
    requires !x.Arr?
    ensures Validate(h, ArrayV(item), x) == Fail([ArrayValidator.ARRAY_ERROR])
  {
  }

  /** Every element is validated, with no short-circuit: the array fails iff
      some element fails, with all elements' prefixed errors in index order. */
  lemma ArrayChecksEveryItem(h: Host, item: Validator, items: seq<JsValue>)
    ensures var r := Validate(h, ArrayV(item), Arr(items));
      var rs := ItemResults(h, item, items);
      && (r.success <==> AllSucceed(rs))
      && ErrorsOf(r) == Collect(ArrayValidator.IndexPrefixes(|items|), rs)
  {
    CollectEmptyIffAllSucceed(ArrayValidator.IndexPrefixes(|items|), ItemResults(h, item, items));
  }

  /** An array's errors are exactly its failing elements' errors, each behind
      `"[i]: "` for its index `i`. */
  lemma ArrayErrorsAreIndexed(h: Host, item: Validator, items: seq<JsValue>, e: string)
    ensures var rs := ItemResults(h, item, items);
      e in ErrorsOf(Validate(h, ArrayV(item), Arr(items))) <==>
        exists i, j :: 0 <= i < |items| && !rs[i].success && 0 <= j < |ErrorsOf(rs[i])|
                       && e == "[" + NatToString(i) + "]: " + ErrorsOf(rs[i])[j]
  {
    var rs := ItemResults(h, item, items);
    var ps := ArrayValidator.IndexPrefixes(|items|);
    ArrayChecksEveryItem(h, item, items);
    CollectMembership(ps, rs, e);
    assert forall i :: 0 <= i < |items| ==> ps[i] == "[" + NatToString(i) + "]: ";
  }

  /** The number of errors is the sum of the failing elements' error counts. */
  lemma ArrayErrorCount(h: Host, item: Validator, items: seq<JsValue>)
    ensures var rs := ItemResults(h, item, items);
      && |ErrorsOf(Validate(h, ArrayV(item), Arr(items)))| == ErrorTotal(rs)
      && ErrorTotal(rs) >= FailureCount(rs)
  {
    ArrayChecksEveryItem(h, item, items);
    CollectCount(ArrayValidator.IndexPrefixes(|items|), ItemResults(h, item, items));
  }

  /** On success the output has the input's length and order: element `i` is
      the validated data of input element `i`. */
  lemma ArrayOutputKeepsOrder(h: Host, item: Validator, items: seq<JsValue>)
    ensures var r := Validate(h, ArrayV(item), Arr(items));
      var rs := ItemResults(h, item, items);
      r.success ==>
        && r.data.Some? && r.data.value.Arr? && |r.data.value.items| == |items|
        && forall i :: 0 <= i < |items| ==> r.data.value.items[i] == DataOf(rs[i])
  {
    var r := Validate(h, ArrayV(item), Arr(items));
    if r.success {
      ArrayChecksEveryItem(h, item, items);
      ArrayValidator.SuccessesKeepOrder(ItemResults(h, item, items));
    }
  }

  lemma EmptyArrayPasses(h: Host, item: Validator)
    ensures Validate(h, ArrayV(item), Arr([])) == Pass(Arr([]))
  {
    assert Collect(ArrayValidator.IndexPrefixes(0), ItemResults(h, item, [])) == [];
  }

  /** With an optional item validator, `null` elements come out as `undefined`. */
  lemma OptionalItemsTurnNullIntoUndefined(h: Host, inner: Validator, items: seq<JsValue>)
    ensures var r := Validate(h, ArrayV(OptionalV(inner)), Arr(items));
      r.success ==>
        && r.data.Some? && r.data.value.Arr? && |r.data.value.items| == |items|
        && forall i :: 0 <= i < |items| && items[i].Null? ==> r.data.value.items[i] == Undef
  {
    ArrayOutputKeepsOrder(h, OptionalV(inner), items);
  }

  // ------------------------------------------------------------ composition

  /** An error of a failing result is a real error: only failures carry errors. */
  lemma ErrorsMeanFailure(h: Host, v: Validator, x: JsValue, e: string)
    requires e in ErrorsOf(Validate(h, v, x))
    ensures !Validate(h, v, x).success
  {
  }

  /** Paths compose through nested objects: an error `e` of field `b` inside
      field `a` surfaces as `"a: b: e"`. */
  lemma NestedObjectPaths(h: Host, schema: seq<(string, Validator)>, x: JsValue, k: nat, e: string)
    requires ObjectValidator.IsObjectLike(x)
    requires k < |schema|
    requires e in ErrorsOf(Validate(h, schema[k].1, ObjectValidator.Lookup(x, schema[k].0)))
    ensures schema[k].0 + ": " + e in ErrorsOf(Validate(h, ObjectV(schema), x))
  {
    var rs := FieldResults(h, schema, x);
    ErrorsMeanFailure(h, schema[k].1, ObjectValidator.Lookup(x, schema[k].0), e);
    var j :| 0 <= j < |ErrorsOf(rs[k])| && ErrorsOf(rs[k])[j] == e;
    ObjectErrorsArePathQualified(h, schema, x, schema[k].0 + ": " + e);
  }

  /** An error `e` of element `i` surfaces in the array's errors as `"[i]: e"`. */
  lemma ItemErrorSurfaces(h: Host, item: Validator, items: seq<JsValue>, i: nat, e: string)
    requires i < |items|
    requires e in ErrorsOf(Validate(h, item, items[i]))
    ensures "[" + NatToString(i) + "]: " + e in ErrorsOf(Validate(h, ArrayV(item), Arr(items)))
  {
    var rs := ItemResults(h, item, items);
    ErrorsMeanFailure(h, item, items[i], e);
    var j :| 0 <= j < |ErrorsOf(rs[i])| && ErrorsOf(rs[i])[j] == e;
    ArrayErrorsAreIndexed(h, item, items, "[" + NatToString(i) + "]: " + e);
  }

  /** Paths compose through arrays inside objects: an error `e` of element `i`
      of the array in field `a` surfaces as `"a: [i]: e"`. */
  lemma ArrayInObjectPaths(h: Host, schema: seq<(string, Validator)>, x: JsValue, k: nat,
                           item: Validator, items: seq<JsValue>, i: nat, e: string)
    requires ObjectValidator.IsObjectLike(x)
    requires k < |schema| && schema[k].1 == ArrayV(item)
    requires ObjectValidator.Lookup(x, schema[k].0) == Arr(items)
    requires i < |items|
    requires e in ErrorsOf(Validate(h, item, items[i]))
    ensures schema[k].0 + ": " + ("[" + NatToString(i) + "]: " + e) in ErrorsOf(Validate(h, ObjectV(schema), x))
  {
    ItemErrorSurfaces(h, item, items, i, e);
    NestedObjectPaths(h, schema, x, k, "[" + NatToString(i) + "]: " + e);
  }

  // --------------------------------------------------------------- optional

  /** `optional(V)` lets `undefined` and `null` through as `undefined`,
      without consulting V, and otherwise gives exactly V's result, errors
      unaltered. This holds also when V is already optional and `optional()`
      returns V itself. */
  lemma OptionalDelegates(h: Host, v: Validator, x: JsValue)
    ensures Validate(h, Optional(v), x) ==
      if x.Undef? || x.Null? then Pass(Undef) else Validate(h, v, x)
  {
  }

  /** `optional()` is idempotent: applying it twice gives the same validator,
      and even a double wrapper behaves as a single one. */
  lemma OptionalIdempotent(h: Host, v: Validator, x: JsValue)
    ensures Optional(Optional(v)) == Optional(v)
    ensures Validate(h, OptionalV(OptionalV(v)), x) == Validate(h, OptionalV(v), x)
  {
  }

  /** `optional(V)` accepts exactly what V accepts, plus `undefined` and `null`. */
  lemma OptionalAcceptsExactly(h: Host, v: Validator, x: JsValue)
    ensures Validate(h, Optional(v), x).success <==> x.Undef? || x.Null? || Validate(h, v, x).success
  {
    OptionalDelegates(h, v, x);
  }
}
