/** The errors the handlers report, as one closed enumeration, with the
    messages the source attaches to them. */
module Errors {
  import opened Wrappers

  datatype AccountKind = UserAccount | DoctorAccount

  /** A Joi error code `typ.kind`, such as `string.min`, cut at its first dot:
      `string.pattern.base` is `Code("string", "pattern.base")`. */
  datatype Code = Code(typ: string, kind: string)

  /** One entry of a Joi validation error: the key, Joi's error code and the
      custom message the schema sets for that code, if any. */
  datatype Detail = Detail(path: string, code: Code, custom: Option<string>)

  /** `UndefinedBindParameter` is the MySQL driver's refusal of a query whose
      parameters include `undefined`; `InvalidTimeValue` is the `RangeError`
      of `toISOString` on an unparsable date; `NotAFunction` is the `TypeError`
      of calling a method a value does not have; `Thrown` is an error another
      module throws, with its message. All of them reach `next(error)`. */
  datatype Failure =
    | DuplicateEmail(kind: AccountKind)
    | DuplicatePhone(kind: AccountKind)
    | InvalidCredentials
    | AccountNotActivated
    | InvalidActivationToken
    | AccountNotFound(kind: AccountKind)
    | MissingFields
    | AppointmentNotFound
    | MissingToken
    | InvalidToken
    | NotAuthorized
    | NameRequired
    | DepartmentExists
    | DepartmentNotFound
    | NoFieldsToUpdate
    | ValidationFailed(details: seq<Detail>)
    | ContentTypeNotJson
    | UndefinedBindParameter
    | InvalidTimeValue
    | NotAFunction(callee: string)
    | Thrown(message: string)
}
