/** `src/validation/appointmentValidation.js`: the schema of a new appointment. */
module AppointmentValidation {
  import opened Wrappers
  import opened JsString
  import opened Json
  import opened Errors
  import opened Joi
  import opened Fields

  const DoctorId: Field :=
    Field(NumberType([Integer]), Required, None,
          [Custom(Code("any", "required"), "Doctor ID is required"),
           Custom(Code("number", "base"), "Doctor ID must be a number")])

  /** The custom message of `date.base` speaks of the ISO format, but a string
      in another format fails with `date.format`, which has no custom message. */
  const AppointmentDate: Field :=
    Field(IsoDateType, Required, None,
          [Custom(Code("any", "required"), "Appointment date is required"),
           Custom(Code("date", "base"), "Date must be in ISO format (YYYY-MM-DD)")])

  const Reason: Field :=
    Field(StringType([MinLength(5), MaxLength(500)]), Required, None,
          [Custom(Code("any", "required"), "Reason is required"),
           Custom(Code("string", "min"), "Reason must be at least 5 characters"),
           Custom(Code("string", "max"), "Reason must not exceed 500 characters")])

  const AppointmentSchema: ObjectSchema :=
    ObjectSchema([Key("doctor_id", Single(DoctorId)), Key("date", Single(AppointmentDate)), Key("reason", Single(Reason))], false)

  /** The identifier is, or converts without loss to, a whole number within
      2^53 - 1 either way. */
  predicate ValidDoctorId(b: Builtins, v: Option<Value>) {
    && v.Some? && Numeric(b, v.value).Some?
    && (v.value.Str? ==> b.convertsExactly(v.value.s))
    && var n := Numeric(b, v.value).value;
       n.Floor as real == n && -MaxSafeInteger as real <= n <= MaxSafeInteger as real
  }

  /** The date is an ISO 8601 string naming a real instant, or a number whose
      decimal text is one. */
  predicate ValidDate(b: Builtins, v: Option<Value>) {
    || (IsText(v) && IsoDate(b, v.value.s))
    || (v.Some? && v.value.Num? && IsoDate(b, b.numberText(v.value.n)))
  }

  /** The reason has 5 to 500 code units. */
  predicate ValidReason(v: Option<Value>) {
    IsText(v) && 5 <= Length(v.value.s) <= 500
  }

  lemma DoctorIdAccepts(b: Builtins, data: Record, v: Option<Value>)
    ensures FieldReports(b, data, DoctorId, v) == [] <==> ValidDoctorId(b, v)
  {
    NumberFieldAccepts(b, data, DoctorId, v);
  }

  lemma DateAccepts(b: Builtins, data: Record, v: Option<Value>)
    ensures FieldReports(b, data, AppointmentDate, v) == [] <==> ValidDate(b, v)
  {
  }

  lemma ReasonAccepts(b: Builtins, data: Record, v: Option<Value>)
    ensures FieldReports(b, data, Reason, v) == [] <==> ValidReason(v)
  {
    StringFieldAccepts(b, data, Reason, v);
    if IsText(v) {
      StringRulesPass2(b, Reason.typ.stringRules, v.value.s);
    }
  }

  /** A new appointment is valid exactly when its doctor, date and reason are
      and it has no other key. */
  lemma AppointmentAccepts(b: Builtins, data: Record)
    ensures Validate(b, AppointmentSchema, data) == [] <==>
      && ValidDoctorId(b, Get(data, "doctor_id"))
      && ValidDate(b, Get(data, "date"))
      && ValidReason(Get(data, "reason"))
      && OnlyKeys(data, ["doctor_id", "date", "reason"])
  {
    ValidateSplit(b, AppointmentSchema, data);
    AppointmentKeys(b, data);
    DoctorIdAccepts(b, data, Get(data, "doctor_id"));
    DateAccepts(b, data, Get(data, "date"));
    ReasonAccepts(b, data, Get(data, "reason"));
    assert Names(AppointmentSchema.keys) == ["doctor_id", "date", "reason"];
  }

  /** The three declared keys are checked one after the other. */
  lemma AppointmentKeys(b: Builtins, data: Record)
    ensures KeysDetails(b, data, AppointmentSchema.keys) == [] <==>
      && FieldReports(b, data, DoctorId, Get(data, "doctor_id")) == []
      && FieldReports(b, data, AppointmentDate, Get(data, "date")) == []
      && FieldReports(b, data, Reason, Get(data, "reason")) == []
  {
    KeysAccept3(b, data, AppointmentSchema.keys);
  }

  /** Which message a bad date gets: a string the ISO parse refuses, whether
      for its format or because it names no instant, gets the library's
      `date.format` message, while a number that is no ISO date and any other
      value that is not a string get the schema's ISO-format message. */
  lemma DateReports(b: Builtins, data: Record, v: Value)
    ensures v.Str? && !IsoDate(b, v.s) ==>
      FieldReports(b, data, AppointmentDate, Some(v)) == [Report(Code("date", "format"), None)]
    ensures (v.Num? && !IsoDate(b, b.numberText(v.n))) || (!v.Str? && !v.Num?) ==>
      FieldReports(b, data, AppointmentDate, Some(v)) == [Report(Code("date", "base"), Some("Date must be in ISO format (YYYY-MM-DD)"))]
  {
    ReportsOne(Code("date", "format"), AppointmentDate.messages);
    ReportsOne(Code("date", "base"), AppointmentDate.messages);
  }

  /** A value that is no number and converts to none is reported as "Doctor ID must be a number". */
  lemma DoctorIdNotNumber(b: Builtins, data: Record, v: Value)
    requires Numeric(b, v).None?
    ensures FieldReports(b, data, DoctorId, Some(v)) == [Report(Code("number", "base"), Some("Doctor ID must be a number"))]
  {
    ReportsOne(Code("number", "base"), DoctorId.messages);
  }

  /** An identifier beyond 2^53 - 1 either way is refused with the library's
      `number.unsafe` message, although it is a whole number. */
  lemma DoctorIdUnsafe(b: Builtins, data: Record, v: Value)
    requires Numeric(b, v).Some? && !SafeNumber(Numeric(b, v).value)
    ensures FieldReports(b, data, DoctorId, Some(v)) == [Report(Code("number", "unsafe"), None)]
  {
    NumberFieldUnsafe(b, data, DoctorId, v);
  }
}
