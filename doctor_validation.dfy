/** `src/validation/doctorvalidation.js`: the schema of a new doctor: the five
    account fields of the register schema, in the same order, then the
    doctor's own. It allows unknown keys, such as the uploaded image. */
module DoctorValidation {
  import opened Wrappers
  import opened JsString
  import opened Json
  import opened Errors
  import opened Joi
  import opened Fields
  import opened UserValidation

  const Specialty: Field :=
    Field(StringType([MinLength(3), MaxLength(100)]), Required, None,
          [Custom(Code("any", "required"), "Specialty is required"),
           Custom(Code("string", "min"), "Specialty must be at least 3 characters"),
           Custom(Code("string", "max"), "Specialty must not exceed 100 characters")])

  const DoctorKeys: seq<Key> :=
    [Key("specialty", Single(Specialty)), Key("description", Single(Description)),
     Key("experience_years", Single(ExperienceYears))]

  const DoctorSchema: ObjectSchema := ObjectSchema(RegisterSchema.keys + DoctorKeys, true)

  /** The specialty has 3 to 100 code units. */
  predicate ValidSpecialty(v: Option<Value>) {
    IsText(v) && 3 <= Length(v.value.s) <= 100
  }

  lemma SpecialtyAccepts(b: Builtins, data: Record, v: Option<Value>)
    ensures FieldReports(b, data, Specialty, v) == [] <==> ValidSpecialty(v)
  {
    StringFieldAccepts(b, data, Specialty, v);
    if IsText(v) {
      StringRulesPass2(b, Specialty.typ.stringRules, v.value.s);
    }
  }

  /** The doctor's own keys accept exactly when the specialty, description and years are valid. */
  lemma DoctorKeysAccept(b: Builtins, data: Record)
    ensures KeysDetails(b, data, DoctorKeys) == [] <==>
      && ValidSpecialty(Get(data, "specialty"))
      && IsText(Get(data, "description")) && ValidDescription(Get(data, "description").value.s)
      && Get(data, "experience_years").Some? && AsNumber(b, Get(data, "experience_years").value).Some?
      && ValidYears(AsNumber(b, Get(data, "experience_years").value).value)
  {
    KeysAccept3(b, data, DoctorKeys);
    SpecialtyAccepts(b, data, Get(data, "specialty"));
    DescriptionAccepts(b, data, Get(data, "description"));
    ExperienceYearsAccepts(b, data, Get(data, "experience_years"));
  }

  /** A new doctor is valid exactly when the account fields are, as for
      registration, and so are the specialty, the description and the years
      of experience. */
  lemma DoctorAccepts(b: Builtins, data: Record)
    ensures Validate(b, DoctorSchema, data) == [] <==>
      && AccountFieldsValid(b, data)
      && ValidSpecialty(Get(data, "specialty"))
      && IsText(Get(data, "description")) && ValidDescription(Get(data, "description").value.s)
      && Get(data, "experience_years").Some? && AsNumber(b, Get(data, "experience_years").value).Some?
      && ValidYears(AsNumber(b, Get(data, "experience_years").value).value)
  {
    ValidateSplit(b, DoctorSchema, data);
    KeysDetailsAppend(b, data, RegisterSchema.keys, DoctorKeys);
    AccountKeysAccept(b, data);
    DoctorKeysAccept(b, data);
  }
}
