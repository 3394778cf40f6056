/** `NumberValidator` (8/validators/number-validator.ts): a type check that
    rejects NaN, then inclusive minimum and maximum checks that both run. */
module NumberValidator {
  import opened Wrappers
  import opened JsValues
  import opened ValidationResults

  /** The final configuration of a `NumberValidator`. */
  datatype Config = Config(min: Option<JsNum>, max: Option<JsNum>, customMessage: Option<string>)

  const Unconfigured: Config := Config(None, None, None)

  function Min(c: Config, n: JsNum): Config {
    c.(min := Some(n))
  }

  function Max(c: Config, n: JsNum): Config {
    c.(max := Some(n))
  }

  function WithMessage(c: Config, m: string): Config {
    c.(customMessage := Some(m))
  }

  const TYPE_ERROR: string := "Value must be a number"

  function MinError(n: JsNum): string {
    "Value must be at least " + NumberToString(n)
  }

  function MaxError(n: JsNum): string {
    "Value must be at most " + NumberToString(n)
  }

  /** `typeof value === 'number' && !isNaN(value)`: infinities are numbers. */
  predicate IsNumber(x: JsValue) {
    x.Num? && !x.n.NaN?
  }

  /** The bounds are inclusive: a value equal to a bound is within it. */
  predicate AtLeastMin(c: Config, n: JsNum) {
    c.min.None? || !Less(n, c.min.value)
  }

  predicate AtMostMax(c: Config, n: JsNum) {
    c.max.None? || !Less(c.max.value, n)
  }

  /** `NumberValidator.validate`. */
  function Validate(c: Config, x: JsValue): (r: ValidationResult)
    ensures WellFormed(r)
    ensures r.success <==> IsNumber(x) && AtLeastMin(c, x.n) && AtMostMax(c, x.n)
    ensures r.success ==> r.data == Some(x)
    ensures !IsNumber(x) ==> r.errors == Some([StringOr(c.customMessage, TYPE_ERROR)])
    ensures IsNumber(x) ==>
      ErrorsOf(r) == (if AtLeastMin(c, x.n) then [] else [MinError(c.min.value)])
                   + (if AtMostMax(c, x.n) then [] else [MaxError(c.max.value)])
  {
    if !x.Num? || x.n.NaN? then
      Fail([StringOr(c.customMessage, TYPE_ERROR)])
    else
      var minErrors := if c.min.Some? && Less(x.n, c.min.value) then [MinError(c.min.value)] else [];
      var maxErrors := if c.max.Some? && Less(c.max.value, x.n) then [MaxError(c.max.value)] else [];
      Conclude(minErrors + maxErrors, x)
  }

  /** The custom message replaces only the type error: range errors keep
      their fixed wording whatever message is set. */
  lemma CustomMessageOnlyForType(c: Config, m: string, x: JsValue)
    ensures IsNumber(x) ==> Validate(WithMessage(c, m), x) == Validate(c, x)
    ensures !IsNumber(x) && m != "" ==> Validate(WithMessage(c, m), x).errors == Some([m])
  {
  }

  /** With no bounds every number passes, infinities included; NaN, numeric
      strings and null do not. */
  lemma UnconfiguredAcceptsNumbers(x: JsValue)
    ensures Validate(Unconfigured, x).success <==> IsNumber(x)
    ensures Validate(Unconfigured, Num(PosInf)) == Pass(Num(PosInf))
    ensures !Validate(Unconfigured, Num(NaN)).success
  {
  }

  /** A value equal to a bound passes it. */
  lemma BoundsInclusive(c: Config, n: JsNum)
    requires !n.NaN?
    ensures AtLeastMin(Min(c, n), n) && AtMostMax(Max(c, n), n)
  {
    LessIsStrictOrder(n, n, n);
  }

  /** A value below the minimum and above the maximum (possible when min > max)
      reports both errors, minimum first. */
  lemma BothRangeErrors(c: Config, v: int)
    requires c.min.Some? && c.max.Some?
    requires c.min.value.Fin? && c.max.value.Fin?
    requires v < c.min.value.value && c.max.value.value < v
    ensures Validate(c, Num(Fin(v))).errors == Some([MinError(c.min.value), MaxError(c.max.value)])
  {
    var r := Validate(c, Num(Fin(v)));
    assert !AtLeastMin(c, Fin(v)) && !AtMostMax(c, Fin(v));
    assert ErrorsOf(r) == [MinError(c.min.value)] + [MaxError(c.max.value)];
    assert [MinError(c.min.value)] + [MaxError(c.max.value)] == [MinError(c.min.value), MaxError(c.max.value)];
  }

  lemma BuildersOverwrite(c: Config, a: JsNum, b: JsNum, m: string, n: string)
    ensures Min(Min(c, a), b) == Min(c, b)
    ensures Max(Max(c, a), b) == Max(c, b)
    ensures WithMessage(WithMessage(c, m), n) == WithMessage(c, n)
    ensures Min(Max(c, a), b) == Max(Min(c, b), a)
  {
  }
}
