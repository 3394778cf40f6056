/** `BooleanValidator` (8/validators/boolean-validator.ts). */
module BooleanValidator {
  import opened Wrappers
  import opened JsValues
  import opened ValidationResults

  datatype Config = Config(customMessage: Option<string>)

  const Unconfigured: Config := Config(None)

  function WithMessage(c: Config, m: string): Config {
    c.(customMessage := Some(m))
  }

  const TYPE_ERROR: string := "Value must be a boolean"

  /** `BooleanValidator.validate`: only the primitives `true` and `false`
      pass, and they pass unchanged. */
  function Validate(c: Config, x: JsValue): (r: ValidationResult)
    ensures WellFormed(r)
    ensures r.success <==> x.Bool?
    ensures r.success ==> r.data == Some(x)
    ensures !r.success ==> r.errors == Some([StringOr(c.customMessage, TYPE_ERROR)])
  {
    if !x.Bool? then Fail([StringOr(c.customMessage, TYPE_ERROR)]) else Pass(x)
  }

  /** Truthy and falsy surrogates fail: numbers, strings, null, undefined,
      objects, arrays and boxed booleans. */
  lemma SurrogatesFail(c: Config, n: JsNum, s: string, items: seq<JsValue>, fields: map<string, JsValue>)
    ensures !Validate(c, Num(n)).success && !Validate(c, Str(s)).success
    ensures !Validate(c, Null).success && !Validate(c, Undef).success
    ensures !Validate(c, Arr(items)).success && !Validate(c, Obj(fields)).success
    ensures !Validate(c, Foreign(true)).success
  {
  }
}
