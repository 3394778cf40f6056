/** The result record every validator returns, and its invariant. */
module ValidationResults {
  import opened Wrappers
  import opened JsValues

  /** `{ success, data?, errors? }`: an absent property is `None`. A present
      `data` property may hold `undefined` (`Some(Undef)`). */
  datatype ValidationResult = ValidationResult(success: bool, data: Option<JsValue>, errors: Option<seq<string>>)

  function Pass(data: JsValue): ValidationResult {
    ValidationResult(true, Some(data), None)
  }

  function Fail(errors: seq<string>): ValidationResult {
    ValidationResult(false, None, Some(errors))
  }

  /** The invariant of a result: success goes with data and no errors;
      failure goes with a non-empty error list and no data. */
  predicate WellFormed(r: ValidationResult) {
    && (r.success <==> r.data.Some? && r.errors.None?)
    && (!r.success <==> r.data.None? && r.errors.Some? && |r.errors.value| > 0)
  }

  /** The invariant admits exactly two shapes: a pass with data, or a failure
      with at least one error. */
  lemma WellFormedShapes(r: ValidationResult)
    ensures WellFormed(r) <==>
      (exists d :: r == Pass(d)) || (exists es: seq<string> :: |es| > 0 && r == Fail(es))
  {
    if WellFormed(r) {
      if r.success {
        assert r == Pass(r.data.value);
      } else {
        assert r == Fail(r.errors.value);
      }
    }
  }

  /** `result.errors || []`: the error list, or nothing when it is absent. */
  function ErrorsOf(r: ValidationResult): seq<string> {
    if r.errors.Some? then r.errors.value else []
  }

  /** `result.data`: reading an absent property gives `undefined`. */
  function DataOf(r: ValidationResult): JsValue {
    if r.data.Some? then r.data.value else Undef
  }

  /** The common ending of every validator: fail with the collected errors if
      there are any, otherwise succeed with `data`. */
  function Conclude(errors: seq<string>, data: JsValue): (r: ValidationResult)
    ensures WellFormed(r)
    ensures r.success <==> errors == []
    ensures r.success ==> r.data == Some(data)
    ensures !r.success ==> r.errors == Some(errors)
  {
    if |errors| > 0 then Fail(errors) else Pass(data)
  }
}
