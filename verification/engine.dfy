/** The validator tree and its recursive `validate` (the `Validator`
    interface of 8/validators/types.ts and every implementation of it). */
module Engine {
  import opened JsValues
  import opened ValidationResults
  import StringValidator
  import NumberValidator
  import BooleanValidator
  import DateValidator
  import ObjectValidator
  import ArrayValidator

  /** Behaviour the JavaScript host supplies: regular-expression matching and
      `Date.parse`. */
  datatype Host = Host(matches: StringValidator.Matcher, parseDate: DateValidator.DateParser)

  /** A validator, with each node in the configuration it has when validation
      starts. A validator shared by several parents appears as identical subtrees. */
  datatype Validator =
    | StringV(stringConfig: StringValidator.Config)
    | NumberV(numberConfig: NumberValidator.Config)
    | BooleanV(booleanConfig: BooleanValidator.Config)
    | DateV(dateConfig: DateValidator.Config)
    | ObjectV(schema: seq<(string, Validator)>)
    | ArrayV(item: Validator)
    | OptionalV(inner: Validator)

  /** The field names of a schema, in declaration order. */
  function Keys(schema: seq<(string, Validator)>): (keys: seq<string>)
    ensures |keys| == |schema|
    ensures forall i :: 0 <= i < |schema| ==> keys[i] == schema[i].0
  {
    seq(|schema|, i requires 0 <= i < |schema| => schema[i].0)
  }

  /** `validate(value)` on any validator, for any input: it always returns,
      and always a well-formed result. */
  function Validate(h: Host, v: Validator, x: JsValue): (r: ValidationResult)
    ensures WellFormed(r)
    decreases v
  {
    match v
    case StringV(c) => StringValidator.Validate(h.matches, c, x)
    case NumberV(c) => NumberValidator.Validate(c, x)
    case BooleanV(c) => BooleanValidator.Validate(c, x)
    case DateV(c) => DateValidator.Validate(h.parseDate, c, x)
    case ObjectV(schema) =>
      if !ObjectValidator.IsObjectLike(x) then Fail([ObjectValidator.OBJECT_ERROR])
      else
        ObjectValidator.Combine(Keys(schema),
          seq(|schema|, i requires 0 <= i < |schema| =>
            Validate(h, schema[i].1, ObjectValidator.Lookup(x, schema[i].0))))
    case ArrayV(item) =>
      if !x.Arr? then Fail([ArrayValidator.ARRAY_ERROR])
      else
        ArrayValidator.Combine(
          seq(|x.items|, i requires 0 <= i < |x.items| => Validate(h, item, x.items[i])))
    case OptionalV(inner) =>
      if x.Undef? || x.Null? then Pass(Undef) else Validate(h, inner, x)
  }

  /** The results of the fields of an object schema, in declaration order. */
  function FieldResults(h: Host, schema: seq<(string, Validator)>, x: JsValue): (rs: seq<ValidationResult>)
    ensures |rs| == |schema|
  {
    seq(|schema|, i requires 0 <= i < |schema| =>
      Validate(h, schema[i].1, ObjectValidator.Lookup(x, schema[i].0)))
  }

  /** The results of the elements of an array, in index order. */
  function ItemResults(h: Host, item: Validator, items: seq<JsValue>): (rs: seq<ValidationResult>)
    ensures |rs| == |items|
  {
    seq(|items|, i requires 0 <= i < |items| => Validate(h, item, items[i]))
  }

  /** `optional()`: every validator wraps itself, except an optional one,
      which returns itself. */
  function Optional(v: Validator): (o: Validator)
    ensures o.OptionalV?
  {
    if v.OptionalV? then v else OptionalV(v)
  }
}
