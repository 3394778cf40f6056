/** The `Schema` facade (8/validators/schema.ts): static factories that each
    return a fresh, unconfigured validator. */
module Schema {
  import opened Wrappers
  import opened JsValues
  import opened Engine
  import StringValidator
  import NumberValidator
  import BooleanValidator
  import DateValidator
  import opened ValidationResults
  import opened Aggregation
  import ObjectValidator

  function String(): (v: Validator)
    ensures v.StringV? && v.stringConfig == StringValidator.Config(None, None, None, None)
  {
    StringV(StringValidator.Unconfigured)
  }

  function Number(): (v: Validator)
    ensures v.NumberV? && v.numberConfig == NumberValidator.Config(None, None, None)
  {
    NumberV(NumberValidator.Unconfigured)
  }

  function Boolean(): (v: Validator)
    ensures v.BooleanV? && v.booleanConfig.customMessage.None?
  {
    BooleanV(BooleanValidator.Unconfigured)
  }

  function Date(): (v: Validator)
    ensures v.DateV? && v.dateConfig.customMessage.None?
  {
    DateV(DateValidator.Unconfigured)
  }

  /** `Schema.object(s)` is `new ObjectValidator(s)`. */
  function Object(schema: seq<(string, Validator)>): (v: Validator)
    ensures v.ObjectV? && v.schema == schema
  {
    ObjectV(schema)
  }

  /** `Schema.array(v)` is `new ArrayValidator(v)`. */
  function Array(item: Validator): (v: Validator)
    ensures v.ArrayV? && v.item == item
  {
    ArrayV(item)
  }

  /** A fresh leaf validator checks only the kind of its input: strings,
      non-NaN numbers, booleans and valid dates, whatever the host. */
  lemma FreshLeavesAcceptTheirKind(h: Host, x: JsValue)
    ensures Validate(h, String(), x).success <==> x.Str?
    ensures Validate(h, Number(), x).success <==> x.Num? && !x.n.NaN?
    ensures Validate(h, Boolean(), x).success <==> x.Bool?
    ensures Validate(h, Date(), x).success <==> DateValidator.IsValidDate(h.parseDate, x)
    ensures !x.Str? ==> Validate(h, String(), x) == Fail([StringValidator.TYPE_ERROR])
    ensures !x.Bool? ==> Validate(h, Boolean(), x) == Fail([BooleanValidator.TYPE_ERROR])
  {
  }

  /** The e-mail pattern of the schema's error-collection example. */
  const EMAIL: StringValidator.Pattern := StringValidator.Pattern("^[^\\s@]+@[^\\s@]+\\.[^\\s@]+$", "")

  /** The error a string that does not match `EMAIL` gets. */
  const EMAIL_ERROR: string := "Value must match pattern /" + EMAIL.source + "/"

  /** The example's schema: a name of at least two characters, a non-negative
      age and an e-mail address matching `EMAIL`. */
  function PersonSchema(): (v: Validator)
    ensures v.ObjectV? && |v.schema| == 3
  {
    Object([
      ("name", StringV(StringValidator.MinLength(StringValidator.Unconfigured, Fin(2)))),
      ("age", NumberV(NumberValidator.Min(NumberValidator.Unconfigured, Fin(0)))),
      ("email", StringV(StringValidator.WithPattern(StringValidator.Unconfigured, EMAIL)))])
  }

  /** The three field validators of `PersonSchema`, each on its wrong value. */
  lemma NameTooShort(h: Host)
    ensures Validate(h, PersonSchema().schema[0].1, Str("J")) == Fail(["Value must be at least 2 characters long"])
  {
    var c := StringValidator.MinLength(StringValidator.Unconfigured, Fin(2));
    assert PersonSchema().schema[0].1 == StringV(c);
    assert NumberToString(Fin(2)) == "2";
    assert StringValidator.MinLengthError(Fin(2)) == "Value must be at least 2 characters long";
    assert |"J"| == 1 && Less(Fin(1), Fin(2));
    var e := "Value must be at least 2 characters long";
    assert [] + [e] + [] == [e];
    assert Conclude([e], Str("J")) == Fail([e]);
    assert StringValidator.Validate(h.matches, c, Str("J")) == Fail(["Value must be at least 2 characters long"]);
  }

  lemma AgeTooSmall(h: Host)
    ensures Validate(h, PersonSchema().schema[1].1, Num(Fin(-5))) == Fail(["Value must be at least 0"])
  {
    var c := NumberValidator.Min(NumberValidator.Unconfigured, Fin(0));
    assert PersonSchema().schema[1].1 == NumberV(c);
    assert NumberToString(Fin(0)) == "0";
    var e := NumberValidator.MinError(Fin(0));
    assert e == "Value must be at least 0";
    assert Less(Fin(-5), Fin(0));
    assert [e] + [] == [e];
    assert Conclude([e], Num(Fin(-5))) == Fail([e]);
  }

  lemma EmailMismatch(h: Host)
    requires !h.matches(EMAIL, "invalid-email")
    ensures Validate(h, PersonSchema().schema[2].1, Str("invalid-email")) == Fail([EMAIL_ERROR])
  {
    var c := StringValidator.WithPattern(StringValidator.Unconfigured, EMAIL);
    assert PersonSchema().schema[2].1 == StringV(c);
    var e := StringValidator.PatternError(EMAIL);
    assert e == EMAIL_ERROR;
    assert StringOr(None, e) == e;
    assert [e] + [] + [] == [e];
    assert Conclude([e], Str("invalid-email")) == Fail([e]);
  }

  /** Three children's errors are laid end to end, each behind its prefix. */
  lemma CollectThree(p0: string, p1: string, p2: string, r0: ValidationResult, r1: ValidationResult, r2: ValidationResult)
    ensures Collect([p0, p1, p2], [r0, r1, r2]) == Contribution(p0, r0) + Contribution(p1, r1) + Contribution(p2, r2)
  {
    assert [p0] + [p1] == [p0, p1] && [r0] + [r1] == [r0, r1];
    CollectAppend([p0], [r0], [p1], [r1]);
    assert [p0, p1] + [p2] == [p0, p1, p2] && [r0, r1] + [r2] == [r0, r1, r2];
    CollectAppend([p0, p1], [r0, r1], [p2], [r2]);
    CollectOne(p0, r0);
    CollectOne(p1, r1);
    CollectOne(p2, r2);
  }

  /** The wrong record of the example. */
  const WRONG_PERSON: JsValue := Obj(map["name" := Str("J"), "age" := Num(Fin(-5)), "email" := Str("invalid-email")])

  lemma PersonFieldResults(h: Host)
    requires !h.matches(EMAIL, "invalid-email")
    ensures FieldResults(h, PersonSchema().schema, WRONG_PERSON)
         == [Fail(["Value must be at least 2 characters long"]), Fail(["Value must be at least 0"]), Fail([EMAIL_ERROR])]
  {
    var rs := FieldResults(h, PersonSchema().schema, WRONG_PERSON);
    assert ObjectValidator.Lookup(WRONG_PERSON, "name") == Str("J");
    assert ObjectValidator.Lookup(WRONG_PERSON, "age") == Num(Fin(-5));
    assert ObjectValidator.Lookup(WRONG_PERSON, "email") == Str("invalid-email");
    NameTooShort(h);
    AgeTooSmall(h);
    EmailMismatch(h);
  }

  lemma PersonErrors()
    ensures Collect(["name: ", "age: ", "email: "],
                    [Fail(["Value must be at least 2 characters long"]), Fail(["Value must be at least 0"]), Fail([EMAIL_ERROR])])
         == ["name: " + "Value must be at least 2 characters long", "age: " + "Value must be at least 0", "email: " + EMAIL_ERROR]
  {
    CollectThree("name: ", "age: ", "email: ",
      Fail(["Value must be at least 2 characters long"]), Fail(["Value must be at least 0"]), Fail([EMAIL_ERROR]));
    PrefixedOne("name: ", "Value must be at least 2 characters long");
    PrefixedOne("age: ", "Value must be at least 0");
    PrefixedOne("email: ", EMAIL_ERROR);
  }

  /** The example's errors are prefixed by its keys, in schema order. */
  lemma PersonPrefixes()
    ensures ObjectValidator.FieldPrefixes(Keys(PersonSchema().schema)) == ["name: ", "age: ", "email: "]
  {
    var keys := Keys(PersonSchema().schema);
    assert keys[0] == "name" && keys[1] == "age" && keys[2] == "email";
    var ps := ObjectValidator.FieldPrefixes(keys);
    assert ps[0] == "name: " && ps[1] == "age: " && ps[2] == "email: ";
  }

  /** An object validator reports every failing field, each behind its key and
      in schema order: a record wrong in all three fields yields three errors. */
  lemma PersonSchemaCollectsAllErrors(h: Host)
    requires !h.matches(EMAIL, "invalid-email")
    ensures Validate(h, PersonSchema(), WRONG_PERSON)
         == Fail([
              "name: " + "Value must be at least 2 characters long",
              "age: " + "Value must be at least 0",
              "email: " + EMAIL_ERROR])
  {
    var schema := PersonSchema().schema;
    var rs := FieldResults(h, schema, WRONG_PERSON);
    PersonFieldResults(h);
    var keys := Keys(schema);
    PersonPrefixes();
    PersonErrors();
    var errors := ["name: " + "Value must be at least 2 characters long", "age: " + "Value must be at least 0", "email: " + EMAIL_ERROR];
    assert Validate(h, PersonSchema(), WRONG_PERSON) == ObjectValidator.Combine(keys, rs);
    assert Conclude(errors, Obj(ObjectValidator.Record(keys, rs))) == Fail(errors);
  }
}
