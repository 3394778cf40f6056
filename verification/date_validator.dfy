/** `DateValidator` (8/validators/date-validator.ts): Dates pass through,
    strings and numbers are converted with `new Date(value)`, and the result
    must have a valid time value. */
module DateValidator {
  import opened Wrappers
  import opened JsValues
  import opened ValidationResults

  datatype Config = Config(customMessage: Option<string>)

  const Unconfigured: Config := Config(None)

  function WithMessage(c: Config, m: string): Config {
    c.(customMessage := Some(m))
  }

  const DATE_ERROR: string := "Value must be a valid date"

  /** The host's `Date.parse` on a string, as a number (NaN when it cannot
      parse); the accepted formats are implementation-defined. */
  type DateParser = string -> JsNum

  /** The time value of the Date the validator works with: the Date itself,
      or `new Date(value)` for a string or number, whose time value is
      TimeClip of the parsed or given number. `None` when the input is of any
      other kind; `Some(None)` for an Invalid Date. */
  function DateOf(parse: DateParser, x: JsValue): Option<Option<int>> {
    match x
    case DateVal(t) => Some(t)
    case Str(s) => Some(TimeClip(parse(s)))
    case Num(n) => Some(TimeClip(n))
    case _ => None
  }

  /** The input denotes a real calendar time. */
  predicate IsValidDate(parse: DateParser, x: JsValue) {
    DateOf(parse, x).Some? && DateOf(parse, x).value.Some?
  }

  /** `DateValidator.validate`. */
  function Validate(parse: DateParser, c: Config, x: JsValue): (r: ValidationResult)
    ensures WellFormed(r)
    ensures r.success <==> IsValidDate(parse, x)
    ensures r.success ==> r.data == Some(DateVal(DateOf(parse, x).value))
    ensures r.success && x.DateVal? ==> r.data == Some(x)
    ensures !r.success ==> r.errors == Some([StringOr(c.customMessage, DATE_ERROR)])
  {
    var date :=
      if x.DateVal? then Some(x.time)
      else if x.Str? || x.Num? then Some(if x.Str? then TimeClip(parse(x.s)) else TimeClip(x.n))
      else None;
    if date.None? then
      Fail([StringOr(c.customMessage, DATE_ERROR)])
    else if date.value.None? then
      Fail([StringOr(c.customMessage, DATE_ERROR)])
    else
      Pass(DateVal(date.value))
  }

  /** A number inside the Date range becomes a Date with exactly that time
      value (0 included); NaN, the infinities and out-of-range numbers fail. */
  lemma NumberRoundTrip(parse: DateParser, c: Config, n: JsNum)
    ensures n.Fin? && -MAX_TIME <= n.value <= MAX_TIME ==>
      Validate(parse, c, Num(n)) == Pass(DateVal(Some(n.value)))
    ensures !(n.Fin? && -MAX_TIME <= n.value <= MAX_TIME) ==> !Validate(parse, c, Num(n)).success
  {
  }

  /** Only Dates, strings and numbers can pass; any other kind fails with the
      same message as an unparseable date. */
  lemma OtherKindsFail(parse: DateParser, c: Config, x: JsValue)
    requires !x.DateVal? && !x.Str? && !x.Num?
    ensures Validate(parse, c, x) == Fail([StringOr(c.customMessage, DATE_ERROR)])
  {
  }
}
