/** `StringValidator` (8/validators/string-validator.ts): a type check, then
    pattern, minimum-length and maximum-length checks that all run. */
module StringValidator {
  import opened Wrappers
  import opened JsValues
  import opened ValidationResults

  /** A regular expression literal: its source text and flags. */
  datatype Pattern = Pattern(source: string, flags: string)

  /** `${regex}`: a RegExp converts to `/source/flags`. */
  function PatternText(p: Pattern): string {
    "/" + p.source + "/" + p.flags
  }

  /** Whether a pattern matches a string is the host's regular-expression
      engine; the model takes it as a parameter. */
  type Matcher = (Pattern, string) -> bool

  /** The final configuration of a `StringValidator`. */
  datatype Config = Config(
    pattern: Option<Pattern>,
    minLength: Option<JsNum>,
    maxLength: Option<JsNum>,
    customMessage: Option<string>)

  /** `new StringValidator()`: nothing configured. */
  const Unconfigured: Config := Config(None, None, None, None)

  /** The builders each overwrite one setting (and in the source return the same instance). */
  function WithPattern(c: Config, p: Pattern): Config {
    c.(pattern := Some(p))
  }

  function MinLength(c: Config, n: JsNum): Config {
    c.(minLength := Some(n))
  }

  function MaxLength(c: Config, n: JsNum): Config {
    c.(maxLength := Some(n))
  }

  function WithMessage(c: Config, m: string): Config {
    c.(customMessage := Some(m))
  }

  const TYPE_ERROR: string := "Value must be a string"

  function PatternError(p: Pattern): string {
    "Value must match pattern " + PatternText(p)
  }

  function MinLengthError(n: JsNum): string {
    "Value must be at least " + NumberToString(n) + " characters long"
  }

  function MaxLengthError(n: JsNum): string {
    "Value must be at most " + NumberToString(n) + " characters long"
  }

  /** The constraints a string meets, stated without the validator's control flow. */
  predicate MatchesPattern(matches: Matcher, c: Config, s: string) {
    c.pattern.None? || matches(c.pattern.value, s)
  }

  /** The minimum length is inclusive: a length equal to it is long enough. */
  predicate LongEnough(c: Config, s: string) {
    c.minLength.None? || !Less(Fin(|s|), c.minLength.value)
  }

  /** The maximum length is inclusive. */
  predicate ShortEnough(c: Config, s: string) {
    c.maxLength.None? || !Less(c.maxLength.value, Fin(|s|))
  }

  predicate Satisfies(matches: Matcher, c: Config, s: string) {
    MatchesPattern(matches, c, s) && LongEnough(c, s) && ShortEnough(c, s)
  }

  /** How many of the three constraints `s` violates. */
  function ViolationCount(matches: Matcher, c: Config, s: string): nat {
    (if MatchesPattern(matches, c, s) then 0 else 1)
      + (if LongEnough(c, s) then 0 else 1)
      + (if ShortEnough(c, s) then 0 else 1)
  }

  /** `StringValidator.validate`. */
  function Validate(matches: Matcher, c: Config, x: JsValue): (r: ValidationResult)
    ensures WellFormed(r)
    ensures r.success <==> x.Str? && Satisfies(matches, c, x.s)
    ensures r.success ==> r.data == Some(x)
    ensures !x.Str? ==> r.errors == Some([StringOr(c.customMessage, TYPE_ERROR)])
    ensures x.Str? ==> |ErrorsOf(r)| == ViolationCount(matches, c, x.s)
  {
    if !x.Str? then
      Fail([StringOr(c.customMessage, TYPE_ERROR)])
    else
      var s := x.s;
      var patternErrors :=
        if c.pattern.Some? && !matches(c.pattern.value, s)
        then [StringOr(c.customMessage, PatternError(c.pattern.value))] else [];
      var minErrors :=
        if c.minLength.Some? && Less(Fin(|s|), c.minLength.value)
        then [MinLengthError(c.minLength.value)] else [];
      var maxErrors :=
        if c.maxLength.Some? && Less(c.maxLength.value, Fin(|s|))
        then [MaxLengthError(c.maxLength.value)] else [];
      Conclude(patternErrors + minErrors + maxErrors, x)
  }

  /** For a string, every check runs and each violation is reported in check
      order: the pattern error (the only one that honours the custom message)
      first, then the minimum-length error, then the maximum-length error. */
  lemma StringChecksAllReported(matches: Matcher, c: Config, s: string)
    ensures var es := ErrorsOf(Validate(matches, c, Str(s)));
      && (!MatchesPattern(matches, c, s) ==> es[0] == StringOr(c.customMessage, PatternError(c.pattern.value)))
      && (!LongEnough(c, s) ==>
            es[if MatchesPattern(matches, c, s) then 0 else 1] == MinLengthError(c.minLength.value))
      && (!ShortEnough(c, s) ==> es[|es| - 1] == MaxLengthError(c.maxLength.value))
  {
  }

  /** The custom message replaces only the type error and the pattern error:
      once the type and the pattern are fine, setting it changes nothing, so
      length errors keep their fixed wording. */
  lemma CustomMessageScope(matches: Matcher, c: Config, m: string, x: JsValue)
    ensures x.Str? && MatchesPattern(matches, c, x.s) ==>
      Validate(matches, WithMessage(c, m), x) == Validate(matches, c, x)
    ensures !x.Str? && m != "" ==> Validate(matches, WithMessage(c, m), x).errors == Some([m])
    ensures x.Str? && !MatchesPattern(matches, c, x.s) && m != "" ==>
      ErrorsOf(Validate(matches, WithMessage(c, m), x))[0] == m
  {
  }

  /** An empty custom message is falsy, so it behaves as no message at all. */
  lemma EmptyMessageIsNoMessage(matches: Matcher, c: Config, x: JsValue)
    ensures Validate(matches, WithMessage(c, ""), x) == Validate(matches, c.(customMessage := None), x)
  {
  }

  /** A string whose length equals a configured bound passes that bound. */
  lemma LengthBoundsInclusive(c: Config, s: string)
    ensures LongEnough(MinLength(c, Fin(|s|)), s)
    ensures ShortEnough(MaxLength(c, Fin(|s|)), s)
  {
    LessIsStrictOrder(Fin(|s|), Fin(|s|), Fin(|s|));
  }

  /** A fresh validator accepts every string, the empty one included, and
      returns it unchanged. */
  lemma UnconfiguredAcceptsAnyString(matches: Matcher, s: string)
    ensures Validate(matches, Unconfigured, Str(s)) == Pass(Str(s))
  {
  }

  /** Each builder overwrites its own setting: a later call wins, and calls on
      different settings commute, so a chain is described by its final configuration. */
  lemma BuildersOverwrite(c: Config, p: Pattern, q: Pattern, a: JsNum, b: JsNum, m: string, n: string)
    ensures WithPattern(WithPattern(c, p), q) == WithPattern(c, q)
    ensures MinLength(MinLength(c, a), b) == MinLength(c, b)
    ensures MaxLength(MaxLength(c, a), b) == MaxLength(c, b)
    ensures WithMessage(WithMessage(c, m), n) == WithMessage(c, n)
    ensures MinLength(MaxLength(c, a), b) == MaxLength(MinLength(c, b), a)
    ensures WithMessage(WithPattern(c, p), m) == WithPattern(WithMessage(c, m), p)
  {
  }
}
