/** `src/validation/userValidation.js`: the register, login and activation
    schemas. None of them allows unknown keys. */
module UserValidation {
  import opened Wrappers
  import opened JsString
  import opened Json
  import opened Errors
  import opened Joi
  import opened Fields
  import opened Patterns

  const RegisterSchema: ObjectSchema :=
    ObjectSchema([Key("name", Single(Name)), Key("email", Single(Email)), Key("phone", Single(Phone)),
                  Key("password", Single(Password)), Key("confirmPassword", Single(ConfirmPassword))], false)

  const EmailOrPhone: KeySchema :=
    OneOf([Optionally(Email), Optionally(Phone)], Required,
          [Custom(Code("alternatives", "match"), "Please enter a valid email or phone number"),
           Custom(Code("any", "required"), "Email or phone number is required")])

  const LoginPassword: Field := Field(StringType([]), Required, None, [Custom(Code("any", "required"), "Password is required")])

  const LoginSchema: ObjectSchema :=
    ObjectSchema([Key("emailOrPhone", EmailOrPhone), Key("password", Single(LoginPassword))], false)

  const TokenSchema: ObjectSchema := ObjectSchema([Key("token", Single(Token))], false)

  /** The account fields of a register or add-doctor body are valid: a name,
      an address, a phone, a strong enough password and `confirmPassword`
      equal to it. */
  ghost predicate AccountFieldsValid(b: Builtins, data: Record) {
    && IsText(Get(data, "name")) && ValidName(Get(data, "name").value.s)
    && IsText(Get(data, "email")) && Get(data, "email").value.s != "" && b.isEmail(Get(data, "email").value.s)
    && IsText(Get(data, "phone")) && ValidPhone(Get(data, "phone").value.s)
    && IsText(Get(data, "password")) && ValidPassword(Get(data, "password").value.s)
    && Get(data, "confirmPassword").Some? && Get(data, "confirmPassword") == Get(data, "password")
  }

  /** The five account keys accept exactly when the account fields are valid. */
  lemma AccountKeysAccept(b: Builtins, data: Record)
    ensures KeysDetails(b, data, RegisterSchema.keys) == [] <==> AccountFieldsValid(b, data)
  {
    KeysAccept5(b, data, RegisterSchema.keys);
    NameAccepts(b, data, Get(data, "name"));
    EmailAccepts(b, data, Get(data, "email"));
    PhoneAccepts(b, data, Get(data, "phone"));
    PasswordAccepts(b, data, Get(data, "password"));
    ConfirmPasswordAccepts(b, data, Get(data, "confirmPassword"));
  }

  /** A register body is valid exactly when its account fields are and it has no other key. */
  lemma RegisterAccepts(b: Builtins, data: Record)
    ensures Validate(b, RegisterSchema, data) == [] <==>
      AccountFieldsValid(b, data) && OnlyKeys(data, ["name", "email", "phone", "password", "confirmPassword"])
  {
    ValidateSplit(b, RegisterSchema, data);
    AccountKeysAccept(b, data);
    assert Names(RegisterSchema.keys) == ["name", "email", "phone", "password", "confirmPassword"];
  }

  /** A `confirmPassword` that differs from `password` is always reported. */
  lemma RegisterRejectsMismatch(b: Builtins, data: Record)
    requires Get(data, "confirmPassword").Some? && Get(data, "confirmPassword") != Get(data, "password")
    ensures Detail("confirmPassword", Code("any", "only"), None) in Validate(b, RegisterSchema, data)
  {
    var v := Get(data, "confirmPassword").value;
    SameAsAccepts(b, data, ConfirmPassword, v);
    ValidateCollectsAll(b, RegisterSchema, data);
    assert RegisterSchema.keys[4] == Key("confirmPassword", Single(ConfirmPassword));
    assert |KeyReports(b, data, Single(ConfirmPassword), Some(v))| > 0;
  }

  /** `emailOrPhone` is accepted exactly when it is a non-empty string that is an address or a phone. */
  lemma EmailOrPhoneAccepts(b: Builtins, data: Record, v: Option<Value>)
    ensures KeyReports(b, data, EmailOrPhone, v) == [] <==>
      IsText(v) && v.value.s != "" && (b.isEmail(v.value.s) || ValidPhone(v.value.s))
  {
    if v.Some? {
      OneOf2Accepts(b, data, Optionally(Email), Optionally(Phone), Required, EmailOrPhone.messages, v.value);
      StringFieldAccepts(b, data, Optionally(Email), v);
      StringFieldAccepts(b, data, Optionally(Phone), v);
      if IsText(v) {
        PhoneMatchMeans(v.value.s);
      }
    }
  }

  /** An absent `emailOrPhone` is reported as "Email or phone number is required". */
  lemma EmailOrPhoneMissing(b: Builtins, data: Record)
    ensures KeyReports(b, data, EmailOrPhone, None) == [Report(Code("any", "required"), Some("Email or phone number is required"))]
  {
    ReportsOne(Code("any", "required"), EmailOrPhone.messages);
  }

  /** A non-empty string that is neither an address nor a phone is reported
      as "Please enter a valid email or phone number". */
  lemma EmailOrPhoneMismatch(b: Builtins, data: Record, s: string)
    requires s != "" && !b.isEmail(s) && !ValidPhone(s)
    ensures KeyReports(b, data, EmailOrPhone, Some(Str(s)))
         == [Report(Code("alternatives", "match"), Some("Please enter a valid email or phone number"))]
  {
    RuleCodesNotTypes();
    EmailRejects(b, data, Optional, s);
    PhoneRejects(b, data, Optional, s);
    OneOf2Mismatch(b, data, Optionally(Email), Optionally(Phone), Required, EmailOrPhone.messages,
                   Str(s), Report(Code("string", "email"), None), Report(Code("string", "pattern.base"), None));
  }

  /** A value that is not a string fails both options on their type, and is
      reported with the library's `alternatives.types` message. */
  lemma EmailOrPhoneNotText(b: Builtins, data: Record, v: Value)
    requires !v.Str?
    ensures KeyReports(b, data, EmailOrPhone, Some(v)) == [Report(Code("alternatives", "types"), None)]
  {
    var r := Report(Code("string", "base"), None);
    assert FieldReports(b, data, Optionally(Email), Some(v)) == [r];
    assert FieldReports(b, data, Optionally(Phone), Some(v)) == [r];
    OneOf2Types(b, data, Optionally(Email), Optionally(Phone), Required, EmailOrPhone.messages, v, r, r);
  }

  /** The login schema checks `emailOrPhone` as alternatives and `password` as a plain string. */
  lemma LoginKeys(b: Builtins, data: Record)
    ensures Validate(b, LoginSchema, data) == [] <==>
      && KeyReports(b, data, EmailOrPhone, Get(data, "emailOrPhone")) == []
      && FieldReports(b, data, LoginPassword, Get(data, "password")) == []
      && OnlyKeys(data, Names(LoginSchema.keys))
  {
    ValidateSplit(b, LoginSchema, data);
    KeysAccept2(b, data, LoginSchema.keys);
  }

  /** A login body is valid exactly when `emailOrPhone` is an address or a
      phone, `password` is a non-empty string of any strength, and it has no other key. */
  lemma LoginAccepts(b: Builtins, data: Record)
    ensures Validate(b, LoginSchema, data) == [] <==>
      && IsText(Get(data, "emailOrPhone")) && Get(data, "emailOrPhone").value.s != ""
      && (b.isEmail(Get(data, "emailOrPhone").value.s) || ValidPhone(Get(data, "emailOrPhone").value.s))
      && IsText(Get(data, "password")) && Get(data, "password").value.s != ""
      && OnlyKeys(data, ["emailOrPhone", "password"])
  {
    LoginKeys(b, data);
    EmailOrPhoneAccepts(b, data, Get(data, "emailOrPhone"));
    StringFieldAccepts(b, data, LoginPassword, Get(data, "password"));
    assert Names(LoginSchema.keys) == ["emailOrPhone", "password"];
  }

  /** An activation body is valid exactly when it is `{token}` with a token of three segments. */
  lemma TokenBodyAccepts(b: Builtins, data: Record)
    ensures Validate(b, TokenSchema, data) == [] <==>
      IsText(Get(data, "token")) && TokenShape(Get(data, "token").value.s)
      && OnlyKeys(data, ["token"])
  {
    ValidateSplit(b, TokenSchema, data);
    KeysAccept1(b, data, TokenSchema.keys);
    TokenAccepts(b, data, Get(data, "token"));
    assert Names(TokenSchema.keys) == ["token"];
  }
}
