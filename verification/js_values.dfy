/** The dynamically typed JavaScript values that the validators inspect. */
module JsValues {
  import opened Wrappers
  import opened Text

  /** A JavaScript number. Finite values are modelled as integers; `-0` is `Fin(0)`. */
  datatype JsNum = NaN | PosInf | NegInf | Fin(value: int)

  /** Any JavaScript value, classified as `typeof`, `Array.isArray` and
      `instanceof Date` see it. `DateVal` holds the Date's time value
      (`None` for an Invalid Date, whose time value is NaN). `Foreign` is
      every other value: symbols, bigints and functions (`typeofObject`
      false) and objects such as `new Boolean(true)` (`typeofObject` true). */
  datatype JsValue =
    | Undef
    | Null
    | Bool(b: bool)
    | Num(n: JsNum)
    | Str(s: string)
    | Arr(items: seq<JsValue>)
    | Obj(fields: map<string, JsValue>)
    | DateVal(time: Option<int>)
    | Foreign(typeofObject: bool)

  /** JavaScript's `a < b` on numbers: false whenever either side is NaN. */
  predicate Less(a: JsNum, b: JsNum) {
    if a.NaN? || b.NaN? || a.PosInf? || b.NegInf? then false
    else if a.NegInf? || b.PosInf? then true
    else a.value < b.value
  }

  /** On numbers other than NaN, `<` is a strict total order; NaN is
      unordered with everything. */
  lemma LessIsStrictOrder(a: JsNum, b: JsNum, c: JsNum)
    ensures !Less(a, a)
    ensures Less(a, b) ==> !Less(b, a)
    ensures Less(a, b) && Less(b, c) ==> Less(a, c)
    ensures !a.NaN? && !b.NaN? && a != b ==> Less(a, b) || Less(b, a)
    ensures a.NaN? || b.NaN? ==> !Less(a, b) && !Less(b, a)
  {
  }

  /** JavaScript's `String(n)` for the numbers of this model. */
  function NumberToString(n: JsNum): string {
    match n
    case NaN => "NaN"
    case PosInf => "Infinity"
    case NegInf => "-Infinity"
    case Fin(v) => IntToString(v)
  }

  /** JavaScript's `custom || fallback` for an optional string: an absent or
      empty custom string is falsy and yields the fallback. */
  function StringOr(custom: Option<string>, fallback: string): (s: string)
    ensures s == fallback || (custom.Some? && s == custom.value)
    ensures custom.Some? && custom.value != "" ==> s == custom.value
    ensures custom.None? || custom.value == "" ==> s == fallback
  {
    if custom.Some? && custom.value != "" then custom.value else fallback
  }

  /** The largest time value a Date may hold, in milliseconds (ECMA-262 section 21.4.1.1). */
  const MAX_TIME: int := 8_640_000_000_000_000

  /** TimeClip (ECMA-262 section 21.4.1.31): a time value is valid iff it is
      finite and at most 8.64e15 in magnitude; otherwise the Date is invalid. */
  function TimeClip(t: JsNum): Option<int> {
    if t.Fin? && -MAX_TIME <= t.value <= MAX_TIME then Some(t.value) else None
  }
}
