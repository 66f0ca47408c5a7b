/** `src/validation/departmentValidation.js`: the schema of a department. It
    allows unknown keys. */
module DepartmentValidation {
  import opened Wrappers
  import opened JsString
  import opened Json
  import opened Errors
  import opened Joi
  import opened Fields

  const DepartmentName: Field :=
    Field(StringType([]), Required, None,
          [Custom(Code("string", "empty"), "Name is required"), Custom(Code("any", "required"), "Name is required")])

  const DepartmentDescription: Field := Field(StringType([]), Optional, None, [])

  const DepartmentImage: Field := Field(AnyType, Optional, None, [])

  const DepartmentSchema: ObjectSchema :=
    ObjectSchema([Key("name", Single(DepartmentName)), Key("description", Single(DepartmentDescription)),
                  Key("image", Single(DepartmentImage))], true)

  /** Only the name and the description can fail: `image` takes any value. */
  lemma DepartmentKeys(b: Builtins, data: Record)
    ensures Validate(b, DepartmentSchema, data) == [] <==>
      && FieldReports(b, data, DepartmentName, Get(data, "name")) == []
      && FieldReports(b, data, DepartmentDescription, Get(data, "description")) == []
  {
    ValidateSplit(b, DepartmentSchema, data);
    KeysAccept3(b, data, DepartmentSchema.keys);
    assert KeyAccepts(b, data, DepartmentSchema.keys[2]);
  }

  /** A department body is valid exactly when its name is a non-empty string
      and its description, if there is one, is a non-empty string as well.
      The image and any other key may hold anything. */
  lemma DepartmentAccepts(b: Builtins, data: Record)
    ensures Validate(b, DepartmentSchema, data) == [] <==>
      && IsText(Get(data, "name")) && Get(data, "name").value.s != ""
      && (Get(data, "description").None? || (IsText(Get(data, "description")) && Get(data, "description").value.s != ""))
  {
    DepartmentKeys(b, data);
    StringFieldAccepts(b, data, DepartmentName, Get(data, "name"));
    StringFieldAccepts(b, data, DepartmentDescription, Get(data, "description"));
  }

  /** A missing or empty name is reported as "Name is required", and nothing else is said about it. */
  lemma DepartmentNameRequired(b: Builtins, data: Record)
    ensures FieldReports(b, data, DepartmentName, None) == [Report(Code("any", "required"), Some("Name is required"))]
    ensures FieldReports(b, data, DepartmentName, Some(Str(""))) == [Report(Code("string", "empty"), Some("Name is required"))]
  {
    ReportsOne(Code("any", "required"), DepartmentName.messages);
    ReportsOne(Code("string", "empty"), DepartmentName.messages);
  }
}
