/** `src/validation/fields.js`: the shared field schemas (`generalFields`),
    and for each the plain statement of the values it accepts. */
module Fields {
  import opened Wrappers
  import opened JsString
  import opened Json
  import opened Patterns
  import opened Joi
  import opened Errors

  const Email: Field := Field(StringType([EmailAddress]), Required, None, [])

  const Password: Field :=
    Field(StringType([MinLength(6), MaxLength(100), Matches(PasswordPattern)]), Required, None, [])

  const ConfirmPassword: Field := Field(StringType([]), Required, Some("password"), [])

  const Name: Field := Field(StringType([MinLength(2), MaxLength(50), Matches(NamePattern)]), Required, None, [])

  const Phone: Field := Field(StringType([Matches(PhonePattern)]), Required, None, [])

  const Token: Field := Field(StringType([Matches(TokenPattern)]), Required, None, [])

  const Image: Field := Field(StringType([]), Optional, None, [Custom(Code("string", "empty"), "Image cannot be empty")])

  const Description: Field :=
    Field(StringType([MinLength(10), MaxLength(500)]), Required, None,
          [Custom(Code("any", "required"), "Description is required"),
           Custom(Code("string", "min"), "Description must be at least 10 characters"),
           Custom(Code("string", "max"), "Description must not exceed 500 characters")])

  const ExperienceYears: Field :=
    Field(NumberType([Integer, AtLeast(0), AtMost(60)]), Required, None,
          [Custom(Code("any", "required"), "Experience years is required"),
           Custom(Code("number", "base"), "Experience years must be a number"),
           Custom(Code("number", "min"), "Experience years must be at least 0"),
           Custom(Code("number", "max"), "Experience years must not exceed 60")])

  /** `schema.optional()` */
  function Optionally(f: Field): (g: Field)
    ensures g.presence == Optional && g.typ == f.typ && g.sameAs == f.sameAs && g.messages == f.messages
  {
    f.(presence := Optional)
  }

  /** The string a present string value holds. */
  predicate IsText(v: Option<Value>) {
    v.Some? && v.value.Str?
  }

  predicate ValidPhone(s: string) {
    10 <= |s| <= 15 && AllIn(s, Digit)
  }

  ghost predicate ValidPassword(s: string) {
    6 <= Length(s) <= 100 && OnFirstLine(s, Lower) && OnFirstLine(s, Upper) && OnFirstLine(s, Digit)
  }

  predicate ValidName(s: string) {
    2 <= Length(s) <= 50 && AllIn(s, NameClass)
  }

  predicate ValidDescription(s: string) {
    10 <= Length(s) <= 500
  }

  predicate ValidYears(n: real) {
    n.Floor as real == n && 0.0 <= n <= 60.0
  }

  /** A phone is ten to fifteen ASCII digits. */
  lemma PhoneAccepts(b: Builtins, data: Record, v: Option<Value>)
    ensures FieldReports(b, data, Phone, v) == [] <==> IsText(v) && ValidPhone(v.value.s)
  {
    StringFieldAccepts(b, data, Phone, v);
    if IsText(v) {
      PhoneMatchMeans(v.value.s);
    }
  }

  /** A password has 6 to 100 code units and a lowercase letter, an uppercase
      letter and a digit, each found before the first line terminator. */
  lemma PasswordAccepts(b: Builtins, data: Record, v: Option<Value>)
    ensures FieldReports(b, data, Password, v) == [] <==> IsText(v) && ValidPassword(v.value.s)
  {
    StringFieldAccepts(b, data, Password, v);
    if IsText(v) {
      StringRulesPass3(b, Password.typ.stringRules, v.value.s);
      PasswordMatchMeans(v.value.s);
    }
  }

  /** `confirmPassword` is present and equal to `password`: nothing else counts. */
  lemma ConfirmPasswordAccepts(b: Builtins, data: Record, v: Option<Value>)
    ensures FieldReports(b, data, ConfirmPassword, v) == [] <==> v.Some? && Get(data, "password") == v
  {
    if v.Some? {
      SameAsAccepts(b, data, ConfirmPassword, v.value);
    }
  }

  /** A name has 2 to 50 code units, each a Latin letter, an Arabic-block character or white space. */
  lemma NameAccepts(b: Builtins, data: Record, v: Option<Value>)
    ensures FieldReports(b, data, Name, v) == [] <==> IsText(v) && ValidName(v.value.s)
  {
    StringFieldAccepts(b, data, Name, v);
    if IsText(v) {
      StringRulesPass3(b, Name.typ.stringRules, v.value.s);
      NameMatchMeans(v.value.s);
    }
  }

  /** A token is three non-empty runs of `[A-Za-z0-9-_]` joined by two dots. */
  lemma TokenAccepts(b: Builtins, data: Record, v: Option<Value>)
    ensures FieldReports(b, data, Token, v) == [] <==> IsText(v) && TokenShape(v.value.s)
  {
    StringFieldAccepts(b, data, Token, v);
    if IsText(v) {
      TokenMatchMeans(v.value.s);
      assert Split("", '.') == [""];
    }
  }

  /** An e-mail address is a non-empty string the library's address test accepts. */
  lemma EmailAccepts(b: Builtins, data: Record, v: Option<Value>)
    ensures FieldReports(b, data, Email, v) == [] <==> IsText(v) && v.value.s != "" && b.isEmail(v.value.s)
  {
    StringFieldAccepts(b, data, Email, v);
  }

  /** A non-empty string that is not an address fails `email` with `string.email` alone. */
  lemma EmailRejects(b: Builtins, data: Record, presence: Presence, s: string)
    requires s != "" && !b.isEmail(s)
    ensures FieldReports(b, data, Email.(presence := presence), Some(Str(s))) == [Report(Code("string", "email"), None)]
  {
  }

  /** A non-empty string that is not a phone fails `phone` with `string.pattern.base` alone. */
  lemma PhoneRejects(b: Builtins, data: Record, presence: Presence, s: string)
    requires s != "" && !ValidPhone(s)
    ensures FieldReports(b, data, Phone.(presence := presence), Some(Str(s))) == [Report(Code("string", "pattern.base"), None)]
  {
    PhoneMatchMeans(s);
  }

  /** `image` may be absent; present, it must be a non-empty string, and an
      empty one is reported with the schema's own message. */
  lemma ImageAccepts(b: Builtins, data: Record, v: Option<Value>)
    ensures FieldReports(b, data, Image, v) == [] <==> v.None? || (IsText(v) && v.value.s != "")
    ensures FieldReports(b, data, Image, Some(Str(""))) == [Report(Code("string", "empty"), Some("Image cannot be empty"))]
  {
    StringFieldAccepts(b, data, Image, v);
    ReportsOne(Code("string", "empty"), Image.messages);
  }

  /** A description has 10 to 500 code units; a missing one is reported as "Description is required". */
  lemma DescriptionAccepts(b: Builtins, data: Record, v: Option<Value>)
    ensures FieldReports(b, data, Description, v) == [] <==> IsText(v) && ValidDescription(v.value.s)
    ensures FieldReports(b, data, Description, None) == [Report(Code("any", "required"), Some("Description is required"))]
  {
    StringFieldAccepts(b, data, Description, v);
    if IsText(v) {
      StringRulesPass2(b, Description.typ.stringRules, v.value.s);
    }
    ReportsOne(Code("any", "required"), Description.messages);
  }

  /** `experience_years` is, or converts to, a whole number from 0 to 60. */
  lemma ExperienceYearsAccepts(b: Builtins, data: Record, v: Option<Value>)
    ensures FieldReports(b, data, ExperienceYears, v) == [] <==>
      v.Some? && AsNumber(b, v.value).Some? && ValidYears(AsNumber(b, v.value).value)
    ensures FieldReports(b, data, ExperienceYears, None) == [Report(Code("any", "required"), Some("Experience years is required"))]
  {
    NumberFieldAccepts(b, data, ExperienceYears, v);
    if v.Some? && AsNumber(b, v.value).Some? {
      NumberRulesPass3(ExperienceYears.typ.numberRules, AsNumber(b, v.value).value);
    }
    ReportsOne(Code("any", "required"), ExperienceYears.messages);
  }
}
