# Clinic booking backend: a Dafny model of the controllers and middleware

This project models the decision logic of a clinic-booking REST backend. The backend is written in Node.js with Express, MySQL and Joi. The model covers:

- patient and doctor accounts: register, activate by e-mailed link, log in and look up;
- appointment booking, listing and cancelling for the caller a bearer token names;
- department records that only an admin may change, including the SQL text the update handler builds;
- the Joi schemas that validate request bodies;
- the three request middlewares (`validateSchema`, `sanitizeInput`, `validateContentType`);
- the bearer-token middleware;
- the listener that e-mails the activation link.

How the model is built:

- **Store.** The MySQL store is a class, `Tables.Database`. It has one `seq` of rows per table and one `AUTO_INCREMENT` counter per table. Its invariant is that every `id` is a primary key below its counter.
- **Mutating handlers.** Each handler that changes the store is a method with `modifies` on the fields it touches. It follows the source's steps on the body fields it reads: the `SELECT … WHERE`, the `find`s, the insert or update, and the e-mail event. `createAppointment` receives its fields as the JSON values sent; the other handlers receive them with the types their validation schema demands (see "Left out"). Each method is proved equal to a declarative specification function, and the lemmas about that function state what the handler promises: the order of the checks, which rows change, idempotence and kept invariants.
- **Read-only handlers.** These are functions whose contracts say what they return.
- **Services.** The cipher, bcrypt, the token library, JavaScript's `Date` and MySQL's conversion of a bound value to an integer id are the function-typed fields of `Platform.Services`. The model assumes nothing about them. A lemma that needs a property, such as decryption undoing encryption or a signed token verifying for its lifetime, takes it as a hypothesis.
- **Joi.** Joi is modelled as a small schema language with an interpreter (`Joi`). The field rules of `src/validation/fields.js` are constants of that language. The lemmas prove the interpreter's verdict for each schema equal to a plain predicate on the record, such as "ten to fifteen ASCII digits". Each regular expression is written as the left-to-right scan a regex engine performs, and is proved equal to a plain statement of the strings it accepts.
- **JavaScript objects.** Objects are ordered lists of entries (`Json.Record`), because `for…in`, spread and Joi's unknown-key errors depend on key order.

The system's documented behaviour and its code disagree in a few places. The model follows the code:

- **Patient login and the password.** The documentation says patient login verifies the password. `loginUser` instead calls `hashing` on it (src/controller/userController.js:75). That returns a non-empty bcrypt hash, so the password branch never rejects. The model states this as `UserController.LoginUserIgnoresPassword`.
- **Default role.** The documentation gives new patients a default non-admin role. The insert names no `role` column (src/controller/userController.js:37), so the row gets the column's `DEFAULT`. The schema is not part of this model, so that default is a parameter, `Tables.Database.defaultRole`. `Lifecycle.RegisteredUserNotAdmin` shows that a new user is refused every department change unless that default is `"admin"`.
- **Doctor session tokens.** The doctor session token carries no `role`, so a doctor never passes the department admin gate.

## Model

| member | source | states |
|---|---|---|
| Tables.WhereMembers | src/controller/userController.js:59-67 | `SELECT … WHERE` keeps exactly the rows meeting the condition, is empty iff none does, and otherwise starts with the first such row in table order |
| Tables.Find | src/controller/userController.js:21-22 | `find` returns a row meeting the predicate iff one exists |
| Tables.ScreenFinds | src/controller/userController.js:15-30 | selecting `email = ? OR phone = ?` and then `find`ing each condition finds exactly the conditions some row of the table meets |
| Tables.KeyedAppend | src/controller/userController.js:36-39 | an insert keyed by the `AUTO_INCREMENT` counter keeps `id` a primary key |
| Tables.KeyedWhere | src/controller/DepartmentsController.js:137-140 | a `DELETE … WHERE` keeps `id` a primary key |
| Tables.KeyedSameKeys | src/controller/userController.js:118-121 | an `UPDATE` that keeps every row's id keeps `id` a primary key |
| UserController.RegisterUser | src/controller/userController.js:7-50 | on a taken address: `DuplicateEmail`, even if the phone is also taken; then on a taken phone ciphertext: `DuplicatePhone`; otherwise exactly one inactive row (encrypted phone, hashed password, the column's default role) is appended and one `sendEmail` notice without a user type is emitted; a rejection changes nothing and emits nothing |
| UserController.RegisterKeepsContactsUnique | src/controller/userController.js:15-39 | a successful registration keeps addresses and phone ciphertexts unique |
| UserController.LoginUser | src/controller/userController.js:52-93 | no match by address or phone ciphertext: `InvalidCredentials`; the first match inactive: `AccountNotActivated`, before the password; otherwise a one-hour token for `{id, email, phone, role}` and the user with the phone decrypted |
| UserController.LoginUserIgnoresPassword | src/controller/userController.js:75-78 | since bcrypt hashes are never empty, the outcome of login does not depend on the password |
| UserController.LoginUserAcceptsAnyPassword | src/controller/userController.js:64-91 | an active first match logs in with any password, and the token verifies for an hour to that row's claims |
| UserController.SessionClaims | src/controller/userController.js:81 | the session payload is the row's id, address, stored phone ciphertext and role |
| UserController.View | src/controller/userController.js:85-90 | the user shown carries id, name, address and the decrypted phone, never the password |
| UserController.ActivateAccount | src/controller/userController.js:95-133 | a token that does not verify: `InvalidActivationToken`; an unknown address: "User not found"; otherwise every user with the token's address becomes active; a failure changes nothing |
| UserController.ActivateIdempotent | src/controller/userController.js:118-121 | activating again with the same token gives the same table |
| UserController.ActivateTouchesOnlyThatAddress | src/controller/userController.js:118-121 | activation changes only `isActive`, and only on rows with the token's address |
| UserController.GetOneUserById | src/controller/userController.js:136-157 | "User not found" iff no row has the id; otherwise the first such row, phone decrypted |
| UserController.RegisteredUserLookup | src/controller/userController.js:36-39 | a user just registered is found by the id the insert assigned, with the phone they gave |
| UserController.GetAllUsers | src/controller/userController.js:159-175 | `getallUsers` lists every user once, in table order, with the same id and address and the phone decrypted |
| UserController.RegisteredUserListed | src/controller/userController.js:159-175 | after a registration, `getallUsers` lists every earlier user unchanged and in order, then the new user with the phone they gave |
| DoctorController.AddDoctor | src/controller/DoctorController.js:9-57 | email collision before phone collision; otherwise exactly one inactive row (encrypted phone, hashed password, image the upload's name or NULL) and one `sendEmail` notice typed `'doctor'`; a rejection changes nothing |
| DoctorController.AddDoctorKeepsContactsUnique | src/controller/DoctorController.js:20-44 | adding a doctor keeps addresses and phone ciphertexts unique |
| DoctorController.DoctorLogin | src/controller/DoctorController.js:96-142 | unknown account: `InvalidCredentials`; inactive first match: `AccountNotActivated`, before the password; a password bcrypt does not accept: `InvalidCredentials`; otherwise a one-hour token and the login view |
| DoctorController.WrongPasswordLooksLikeUnknownAccount | src/controller/DoctorController.js:108-122 | a wrong password gives exactly the response of an unknown account |
| DoctorController.DoctorLoginWithRegisteredPassword | src/controller/DoctorController.js:118-138 | an active doctor giving the registered password logs in, and the token verifies for an hour to `{id, email, phone}` |
| DoctorController.SessionClaims | src/controller/DoctorController.js:125 | the doctor session payload is id, address and stored phone, with no role |
| DoctorController.ShowLogin | src/controller/DoctorController.js:129-136 | the login view has id, name, address, decrypted phone, specialty and image |
| DoctorController.View | src/controller/DoctorController.js:165-175 | the doctor shown has every column but the password, phone decrypted |
| DoctorController.ActivateDoctorAccount | src/controller/DoctorController.js:59-93 | any verification failure: `InvalidActivationToken`; unknown address: "Doctor not found"; otherwise every doctor with the address becomes active; a failure changes nothing |
| DoctorController.ActivateIdempotent | src/controller/DoctorController.js:78-81 | activating twice is activating once |
| DoctorController.GetOneDoctorById | src/controller/DoctorController.js:146-181 | "Doctor not found" iff no row has the id; otherwise the first such row as shown |
| DoctorController.GetAllDoctors | src/controller/DoctorController.js:184-203 | `getallDoctors` lists every doctor once, in table order, with the same id and address and the phone decrypted |
| DoctorController.AddedDoctorListed | src/controller/DoctorController.js:184-203 | after an add, `getallDoctors` lists every earlier doctor unchanged and in order, then the new doctor with the phone given |
| AppointmentsController.CreateAppointment | src/controller/appointmentsController.js:4-59 | the reason is encrypted first, and an error the cipher throws there comes before every check; then a falsy `doctor_id`, `date` or `reason` (JavaScript truthiness of the values sent); then a `date` that is not a string (`date.includes is not a function`); then an unparsable `T` date; then a `doctor_id` matching no doctor; then a caller without an id; otherwise one row with the caller's id, the matched doctor id, the stored date, the encrypted reason and status `scheduled` is appended; a failure changes nothing |
| AppointmentsController.EncryptReason | src/controller/appointmentsController.js:10 | a text reason is enciphered; any other value, or none, goes to the cipher helper's own handling |
| AppointmentsController.BookingIsCallers | src/controller/appointmentsController.js:38-54 | exactly one row is appended; it is the caller's and names a doctor in the table, the one the sent `doctor_id` matched; the response echoes `doctor_id` and `reason` as sent and the stored date; a reason sent as text is what the listing shows for the row; status `scheduled` |
| AppointmentsController.EncryptionPrecedesChecks | src/controller/appointmentsController.js:10-18 | with no reason, the caller gets the cipher's error if it throws, and "Missing fields" only otherwise; with every field truthy but a non-string `date`, the booking fails at `date.includes` |
| AppointmentsController.StoredDate | src/controller/appointmentsController.js:22-25 | a date without `T` is stored as given; one with `T` is `toISOString()` cut to 19 characters, or `InvalidTimeValue` when `Date` cannot parse it |
| AppointmentsController.StoredDateSettles | src/controller/appointmentsController.js:22-25 | for an ISO string with one `T` in its first 19 characters, the stored date has no `T`, so converting it again keeps it |
| AppointmentsController.ReplaceFirst | src/controller/appointmentsController.js:24 | `replace('T', ' ')` keeps the length, leaves a string without `T` alone, and otherwise puts a space at the position of the first `T`, keeping everything before and after it |
| AppointmentsController.ReplaceFirstCount | src/controller/appointmentsController.js:24 | the replacement removes exactly one `T` |
| AppointmentsController.DateLeTotal | src/controller/appointmentsController.js:66 | the string order of `ORDER BY date` is total |
| AppointmentsController.DateLeTransitive | src/controller/appointmentsController.js:66 | the string order of `ORDER BY date` is transitive |
| AppointmentsController.SortByDateDesc | src/controller/appointmentsController.js:66 | `ORDER BY date DESC` gives a permutation of the rows with no row before a later one |
| AppointmentsController.InsertByDate | src/controller/appointmentsController.js:66 | one insertion step keeps the rows a permutation and latest-first |
| AppointmentsController.MyAppointments | src/controller/appointmentsController.js:61-83 | a caller without an id is refused by the driver; otherwise the list is latest-first |
| AppointmentsController.MyAppointmentsSound | src/controller/appointmentsController.js:65-73 | every appointment listed is one of the caller's, with its reason decrypted |
| AppointmentsController.MyAppointmentsComplete | src/controller/appointmentsController.js:65-73 | every appointment of the caller is listed |
| AppointmentsController.MyAppointmentsCount | src/controller/appointmentsController.js:65-73 | the list is exactly as long as the caller's rows |
| AppointmentsController.View | src/controller/appointmentsController.js:70-73 | an appointment is shown with every column and its reason decrypted |
| AppointmentsController.CancelAppointment | src/controller/appointmentsController.js:85-114 | a caller without an id is refused; no appointment with that id owned by the caller: "Appointment not found"; otherwise that appointment's status becomes `cancelled`; a failure changes nothing |
| AppointmentsController.CancelIdempotent | src/controller/appointmentsController.js:101-104 | cancelling again succeeds and changes nothing more |
| AppointmentsController.CancelOthersRefused | src/controller/appointmentsController.js:91-98 | another user's appointment is "not found" and stays as it was |
| AppointmentsController.CancelChangesOnlyThatAppointment | src/controller/appointmentsController.js:101-104 | a cancellation changes that one appointment's status and no other row |
| DepartmentsController.AddDepartment | src/controller/DepartmentsController.js:3-41 | the admin gate first, then a falsy name, then a name in use, then a missing description (the driver refuses `undefined`); otherwise exactly one row `(name, description, image)`, image NULL without an upload; a failure changes nothing |
| DepartmentsController.AddKeepsNamesUnique | src/controller/DepartmentsController.js:17-31 | adding keeps department names unique |
| DepartmentsController.GetOneDepartment | src/controller/DepartmentsController.js:58-78 | "Department not found" iff no row has the id; otherwise the first such row |
| DepartmentsController.AssignmentsExactlyTruthy | src/controller/DepartmentsController.js:95-106 | a column gets a `SET` clause iff its field is truthy, and then takes that field's value |
| DepartmentsController.AssignmentsMembers | src/controller/DepartmentsController.js:95-106 | the clauses are exactly those of the truthy fields |
| DepartmentsController.AssignmentsOrdered | src/controller/DepartmentsController.js:95-106 | clauses follow the order name, description, image, each column at most once |
| DepartmentsController.BuildUpdate | src/controller/DepartmentsController.js:91-115 | the step-by-step builder gives "No fields to update" with no truthy field, and otherwise the statement whose SQL is the prefix, the comma-separated clauses and ` WHERE id = ?`, with the values in clause order and the id last |
| DepartmentsController.PlaceholdersMatchValues | src/controller/DepartmentsController.js:92-115 | the built SQL has exactly as many `?` as there are values |
| DepartmentsController.NoCommaBeforeWhere | src/controller/DepartmentsController.js:113-114 | the SQL ends with ` WHERE id = ?`, and what precedes it ends with a placeholder, never with `", "` |
| DepartmentsController.AppendedTrimmed | src/controller/DepartmentsController.js:113 | `slice(0, -2)` of the clauses, each followed by `", "`, is the clauses separated by `", "` |
| DepartmentsController.SetListCount | src/controller/DepartmentsController.js:95-106 | the `SET` list holds one `?` per assignment |
| DepartmentsController.AssignFields | src/controller/DepartmentsController.js:95-117 | applying the update sets each truthy field's column and keeps the id and every other column |
| DepartmentsController.UpdateRows | src/controller/DepartmentsController.js:117 | the rows with the id take the new values; every other row is unchanged |
| DepartmentsController.UpdateDepartment | src/controller/DepartmentsController.js:80-126 | the admin gate, then "No fields to update", otherwise the built statement is applied; a failure changes nothing |
| DepartmentsController.UpdateMissingIdIsNoOp | src/controller/DepartmentsController.js:117-122 | with at least one field to set, updating an id no row has succeeds and changes nothing |
| DepartmentsController.DeleteDepartment | src/controller/DepartmentsController.js:128-149 | the admin gate, then every row with the id removed; a failure changes nothing |
| DepartmentsController.DeleteRemovesOnlyThatId | src/controller/DepartmentsController.js:137-145 | delete succeeds whether or not the id exists, keeps every other row, and leaves the id unknown; with no such row the table is unchanged |
| DepartmentsController.NonAdminRefused | src/controller/DepartmentsController.js:6-8 | add, update and delete all give "Not authorized" to any caller whose role is not `"admin"` |
| EmailEvent.EmailEvents.Emit | src/controller/userController.js:42 | `emit("sendEmail", n)` appends the notice |
| EmailEvent.ActivationClaims | src/utils/emails/email.event.js:13-16 | the activation token's payload is the address alone |
| EmailEvent.UserType | src/utils/emails/email.event.js:20 | a falsy user type falls back to `"user"` |
| EmailEvent.OnSendEmail | src/utils/emails/email.event.js:11-31 | the message goes to the notice's address with the register subject, the name as greeting, and the link built from the user type and a 24-hour token |
| EmailEvent.ActivationLinkSegments | src/utils/emails/email.event.js:21 | the link splits on `/` into `http:`, ``, `localhost:3000`, the user type, `activate_account` and the token |
| EmailEvent.EmailedTokenVerifies | src/utils/emails/email.event.js:13-21 | the token in the link's last segment verifies for 24 hours to the address it was sent to |
| EmailEvent.LinkNamesUserType | src/utils/emails/email.event.js:20-21 | the first path segment of the link is the user type |
| EmailEvent.LinkTypeByRegistration | src/utils/emails/email.event.js:20-21 | a doctor's notice yields a `/doctor/` link, one without a type a `/user/` link |
| JsString.TrimSpec | src/validation/validation.middleware.js:10 | `trim` removes white space from both ends and nothing else, and leaves neither end white space |
| JsString.TrimIdempotent | src/validation/validation.middleware.js:47 | trimming twice is trimming once |
| JsString.Length | src/validation/fields.js:9-10 | `length` counts UTF-16 code units: between one and two per character |
| JsString.LengthInBmp | src/validation/fields.js:9-10 | on the Basic Multilingual Plane `length` is the number of characters |
| JsString.SplitPiecesFree | src/utils/errorHandler/authMiddleware.js:5 | no piece of `split(' ')` holds a space |
| JsString.JoinSplit | src/utils/errorHandler/authMiddleware.js:5 | joining the pieces of a split gives the string back |
| JsString.SplitJoin | src/utils/errorHandler/authMiddleware.js:5 | splitting pieces joined by a separator they do not hold gives the pieces back |
| Patterns.PhoneMatchMeans | src/validation/fields.js:25 | `/^[0-9]{10,15}$/` accepts exactly ten to fifteen ASCII digits |
| Patterns.NameMatchMeans | src/validation/fields.js:21 | the name pattern accepts exactly non-empty strings of Latin letters, Arabic-block characters and white space |
| Patterns.PasswordMatchMeans | src/validation/fields.js:11 | the lookaheads accept exactly strings with a lowercase letter, an uppercase letter and a digit, each before the first line terminator |
| Patterns.TokenMatchMeans | src/validation/fields.js:29 | the token pattern accepts exactly three non-empty `[A-Za-z0-9-_]` segments joined by dots |
| Json.PutGet | src/validation/validation.middleware.js:11 | after `obj[k] = v`, `obj[k]` is `v` and every other key reads as before |
| Json.PutKeys | src/validation/validation.middleware.js:11 | assignment keeps the key order and adds a new key at the end |
| Json.PutAt | src/validation/validation.middleware.js:47 | assigning to an existing key replaces that one entry in place |
| Json.PutAll | src/validation/validation.middleware.js:9-12 | a series of assignments leaves each key with its last assigned value, other keys as before |
| Json.Spread | src/validation/validation.middleware.js:15 | `{...a, ...b}` reads each key from `b` where `b` has it, otherwise from `a` |
| Joi.ValidateEmpty | src/validation/validation.middleware.js:18 | an object is valid iff every declared key accepts its value and, unless unknown keys are allowed, it has no other key |
| Joi.ValidateSplit | src/validation/validation.middleware.js:18 | the same, stated over the declared keys' errors as a whole |
| Joi.ValidateCollectsAll | src/validation/validation.middleware.js:18-22 | with `abortEarly: false` every error of every declared key, and every undeclared key, is reported |
| Joi.KeysDetailsAppend | src/validation/doctorvalidation.js:3-17 | the errors of two lists of keys are the errors of the first followed by those of the second |
| Joi.StringFieldAccepts | src/validation/fields.js:4-30 | a string field accepts exactly an absent optional value, or a non-empty string every rule accepts |
| Joi.NumberFieldAccepts | src/validation/fields.js:48-58 | a number field accepts exactly an absent optional value, or a number or a string converting without loss to a number, within ±(2^53 − 1), that every rule accepts |
| Joi.NumberFieldUnsafe | src/validation/fields.js:48-58 | a number, or converted string, beyond ±(2^53 − 1) fails with `number.unsafe` alone |
| Joi.SameAsAccepts | src/validation/fields.js:14-16 | a `valid(ref)` field accepts a present value iff it equals the referenced key's value |
| Joi.OneOfAccepts | src/validation/userValidation.js:13-22 | alternatives accept a present value iff some option does |
| Joi.OneOf2Mismatch | src/validation/userValidation.js:13-22 | two options that each fail on one rule give `alternatives.match` with the schema's message |
| Joi.OneOf2Types | src/validation/userValidation.js:13-22 | two options that both fail on their type give `alternatives.types` |
| Joi.UnmatchedNonEmpty | src/validation/userValidation.js:13-22 | when every option reports a failure, the alternatives report at least one error |
| Fields.EmailAccepts | src/validation/fields.js:4-6 | `email` accepts exactly a non-empty string the address test accepts |
| Fields.PasswordAccepts | src/validation/fields.js:8-12 | `password` accepts exactly 6 to 100 code units with a lowercase letter, an uppercase letter and a digit before the first line terminator |
| Fields.ConfirmPasswordAccepts | src/validation/fields.js:14-16 | `confirmPassword` accepts exactly a present value equal to `password` |
| Fields.NameAccepts | src/validation/fields.js:18-22 | `name` accepts exactly 2 to 50 code units of Latin, Arabic-block or white-space characters |
| Fields.PhoneAccepts | src/validation/fields.js:24-26 | `phone` accepts exactly ten to fifteen ASCII digits |
| Fields.TokenAccepts | src/validation/fields.js:28-30 | `token` accepts exactly three dot-joined segments |
| Fields.ImageAccepts | src/validation/fields.js:32-36 | `image` accepts an absent value or a non-empty string, and an empty one gets "Image cannot be empty" |
| Fields.DescriptionAccepts | src/validation/fields.js:38-46 | `description` accepts exactly 10 to 500 code units, and an absent one gets "Description is required" |
| Fields.ExperienceYearsAccepts | src/validation/fields.js:48-58 | `experience_years` accepts exactly a number, or a string converting to one without loss, that is whole and from 0 to 60, and an absent one gets "Experience years is required" |
| Fields.EmailRejects | src/validation/fields.js:4-6 | a non-empty string that is not an address fails with `string.email` alone |
| Fields.PhoneRejects | src/validation/fields.js:24-26 | a non-empty string that is not a phone fails with `string.pattern.base` alone |
| UserValidation.AccountKeysAccept | src/validation/userValidation.js:4-10 | the five account keys accept iff name, address, phone and password are valid and `confirmPassword` equals `password` |
| UserValidation.RegisterAccepts | src/validation/userValidation.js:4-10 | a register body is valid iff its account fields are and it has no other key |
| UserValidation.RegisterRejectsMismatch | src/validation/userValidation.js:9 | a `confirmPassword` differing from `password` is always reported with `any.only` |
| UserValidation.EmailOrPhoneAccepts | src/validation/userValidation.js:13-22 | `emailOrPhone` accepts exactly a non-empty string that is an address or a phone |
| UserValidation.EmailOrPhoneMissing | src/validation/userValidation.js:18-21 | an absent `emailOrPhone` gets "Email or phone number is required" |
| UserValidation.EmailOrPhoneMismatch | src/validation/userValidation.js:18-20 | a string that is neither gets "Please enter a valid email or phone number" |
| UserValidation.EmailOrPhoneNotText | src/validation/userValidation.js:13-17 | a non-string fails both options on their type and gets the library's `alternatives.types` |
| UserValidation.LoginAccepts | src/validation/userValidation.js:12-26 | a login body is valid iff `emailOrPhone` is an address or a phone, `password` is a non-empty string of any strength, and it has no other key |
| UserValidation.TokenBodyAccepts | src/validation/userValidation.js:28-30 | an activation body is valid iff it is `{token}` with a token of three segments |
| AppointmentValidation.DoctorIdAccepts | src/validation/appointmentValidation.js:4-10 | `doctor_id` accepts exactly a number, or a string converting to one without loss, that is whole and within ±(2^53 − 1) |
| AppointmentValidation.DoctorIdNotNumber | src/validation/appointmentValidation.js:7-9 | a value that is no number and converts to none gets "Doctor ID must be a number" |
| AppointmentValidation.DoctorIdUnsafe | src/validation/appointmentValidation.js:4-10 | a whole number beyond ±(2^53 − 1) is still refused, with the library's `number.unsafe` message |
| AppointmentValidation.DateAccepts | src/validation/appointmentValidation.js:12-18 | `date` accepts exactly a string in ISO format naming a real instant, or a number whose decimal text is one |
| AppointmentValidation.DateReports | src/validation/appointmentValidation.js:15-17 | any string the ISO parse refuses, for its format or because it names no instant, gets `date.format` with the library's message; a number whose text is no ISO date, and every other non-string, gets the schema's `date.base` message |
| AppointmentValidation.ReasonAccepts | src/validation/appointmentValidation.js:20-28 | `reason` accepts exactly 5 to 500 code units |
| AppointmentValidation.AppointmentAccepts | src/validation/appointmentValidation.js:3-29 | a booking body is valid iff its `doctor_id`, `date` and `reason` are valid as the three rows above state and it has no other key |
| DepartmentValidation.DepartmentAccepts | src/validation/departmentValidation.js:3-10 | a department body is valid iff `name` is a non-empty string and `description`, if present, is one; `image` and unknown keys may be anything |
| DepartmentValidation.DepartmentNameRequired | src/validation/departmentValidation.js:4-7 | an absent or empty name gets "Name is required" |
| DoctorValidation.SpecialtyAccepts | src/validation/doctorvalidation.js:10-14 | `specialty` accepts exactly 3 to 100 code units |
| DoctorValidation.DoctorKeysAccept | src/validation/doctorvalidation.js:10-16 | the doctor keys accept iff specialty, description and experience years are valid |
| DoctorValidation.DoctorAccepts | src/validation/doctorvalidation.js:3-17 | an add-doctor body is valid iff the account fields and the doctor keys are; unknown keys are allowed |
| ValidationMiddleware.TrimmedKeys | src/validation/validation.middleware.js:9-11 | every key is trimmed and every value kept, in order |
| ValidationMiddleware.CleanedBodyHolds | src/validation/validation.middleware.js:8-12 | the cleaned body has exactly the trimmed keys, each with the value of the last body key trimming to it |
| ValidationMiddleware.CleanedTrimmedBody | src/validation/validation.middleware.js:8-12 | a body whose keys are already trimmed reads the same after cleaning |
| ValidationMiddleware.MergedData | src/validation/validation.middleware.js:15 | the query wins over the parameters, and both win over the cleaned body |
| ValidationMiddleware.ValidateSchema | src/validation/validation.middleware.js:5-34 | the `for…in` loop and the merge give the outcome `ValidateSchemaSpec` defines: every violation of the merged data, or `next()`; the request is not written |
| ValidationMiddleware.ValidateSchemaCollectsAll | src/validation/validation.middleware.js:18-29 | every error of every declared key, and every undeclared key unless allowed, is in the 400's list |
| ValidationMiddleware.ValidateSchemaMessages | src/validation/validation.middleware.js:18-28 | the 400 response's `errors` holds one message per violation, so it is empty exactly when the request passes, and every failing declared key's message (the schema's own text when it gives one, else Joi's default) is in it |
| ValidationMiddleware.TrimValue | src/validation/validation.middleware.js:46-47 | strings are trimmed; every other value is left alone |
| ValidationMiddleware.SanitizedEntries | src/validation/validation.middleware.js:45-49 | sanitizing keeps every key in its place and trims only string values |
| ValidationMiddleware.SanitizeIdempotent | src/validation/validation.middleware.js:45-49 | sanitizing twice is sanitizing once |
| ValidationMiddleware.SanitizeInput | src/validation/validation.middleware.js:43-51 | the loop leaves `req.body` sanitized in place, and calls `next()` |
| ValidationMiddleware.ValidateContentType | src/validation/validation.middleware.js:53-62 | only a POST whose body is not JSON is refused |
| AuthMiddleware.BearerToken | src/utils/errorHandler/authMiddleware.js:5-7 | a token, when found, is non-empty and holds no space; a header without a space holds none |
| AuthMiddleware.Authenticate | src/utils/errorHandler/authMiddleware.js:3-24 | on success `req.user` holds the decoded claims and `next()` is called; otherwise the 401 that `AuthSpec` selects, with `req.user` untouched |
| AuthMiddleware.AnySchemeAccepted | src/utils/errorHandler/authMiddleware.js:5 | the scheme word before the token is never checked |
| AuthMiddleware.TrailingPiecesIgnored | src/utils/errorHandler/authMiddleware.js:5 | whatever follows the token after a further space is ignored |
| AuthMiddleware.MissingTokenMeans | src/utils/errorHandler/authMiddleware.js:7-12 | "Authorization token is required" is given iff the header holds no token, regardless of the token service |
| AuthMiddleware.NoSpaceNoToken | src/utils/errorHandler/authMiddleware.js:5-12 | a missing header or one without a space gets "Authorization token is required" |
| AuthMiddleware.RejectedTokenMeans | src/utils/errorHandler/authMiddleware.js:18-23 | any token the service rejects gets "Invalid or expired token" |
| AuthMiddleware.SignedTokenAuthenticates | src/utils/errorHandler/authMiddleware.js:14-16 | a session token sent as `Bearer <token>` within its hour authenticates as the claims it was signed with |
| Lifecycle.RegisterActivateLoginAuthenticate | src/controller/userController.js:7-133 | register, follow the e-mailed link within 24 hours, log in with any password and call a protected route within the hour: each step succeeds and the route sees the new user's claims |
| Lifecycle.ActivatedRow | src/controller/userController.js:36-39 | the row a registration inserts, once activated, has the assigned id, the address, `isActive` set and the column's default role |
| Lifecycle.RegisteredUserNotAdmin | src/controller/DepartmentsController.js:5-8 | the new user's session authenticates with the column's default role, so unless that default is `"admin"` adding, updating and deleting departments are all refused |
| Lifecycle.RegisterTwiceRefused | src/controller/userController.js:20-30 | after a registration the same address is refused, and so is the same phone under another address |

## Left out

- MySQL itself is not modelled: connections, SQL parsing, the driver's type coercions and `AUTO_INCREMENT` gaps after failed inserts are left out. Tables are in-memory `seq`s, and filtering is only `WHERE =`, `AND` and `OR`.
- Concurrency is not modelled: each request runs as one atomic call, so the race between the uniqueness check and the insert, and the asynchronous e-mail send, are left out.
- The cipher, bcrypt (including its `ROUND` cost factor from the environment), the token library and `src/utils/token`/`src/utils/encrypt` are not part of this model. They are unconstrained functions; properties such as decryption undoing encryption are hypotheses of the lemmas that use them.
- Joi's own `email()`, `date().iso()`'s ISO test, date parsing, numeric-string conversion (and whether it keeps every digit), the decimal text of a number and the default messages are parameters (`Joi.Builtins`), not reimplemented.
- `Joi.IsTypeCode`: Joi's test for a base-type failure among alternatives splits the code on dots; the model reads the kind part, which is equivalent for codes whose type part holds no dot, as all of Joi's do.
- Joi schema features the sources do not use (conversion of the value returned by `validate`, nested objects, arrays, `any.empty` customisation beyond `string.empty`) are left out; JSON arrays and nested objects are one opaque value.
- `for…in` lists integer-like keys first in ascending order; the model keeps insertion order for every key.
- AppointmentsController.StoredDate: `toISOString` is a parameter with no properties, so the contract states only what holds for any conversion (pass-through without `T`, the `InvalidTimeValue` error, at most 19 characters).
- `ORDER BY date` compares the stored strings by code point; MySQL's `DATETIME` ordering and collations are not modelled.
- `Tables.Where` compares with exact equality and keeps table order. Under MySQL's default collation `WHERE email = ?` compares case- and accent-insensitively, and a `SELECT` without `ORDER BY` returns rows in no promised order, so `userResult[0]` (src/controller/userController.js:67) is the model's first matching row in table order, not necessarily MySQL's.
- Express wiring (the route files, `app.controller.js`), status codes as numbers, response JSON shaping (including the controllers' `message` texts: an `Errors.Failure` names the case, not its wording), multer uploads (`req.file` is an optional filename) and console logging are not modelled.
- The e-mail transport (`sendEmail`, the HTML template and `subjects`) is not modelled; the model produces the message the listener hands to it.
- `updateDepartment` does not check that a new name is unused; nothing in the model claims name uniqueness is kept by updates.
- `getAllDepartments` is a plain `SELECT` of every row and is not modelled.
- `hash.js`'s `compareHash` is bcrypt's compare, the `compare` service; `hashing` is the `hash` service.
- UserController.RegisterUser, UserController.LoginUser, UserController.ActivateAccount, DoctorController.AddDoctor and DoctorController.DoctorLogin take the body fields they read as strings, the type validation demands. Validation checks the merged `{...body, ...params, ...query}`, so a body field that is absent or of another type can reach the handler when a query or path parameter of the same name passes the schema; these members do not model that case.
- DepartmentsController.AddDepartment takes `name` and `description` as optional strings, with the same gap for a body field of another type hidden by a query or path parameter.
- DepartmentsController.UpdateDepartment: the `PUT /update/:id` route (src/Routs/DepartmentsRout.js:13) runs no validation, so `name` and `description` can be any JSON value, and a truthy non-string one (`5`, `true`) is bound and stored. The model takes only strings for them, and DepartmentsController.Assignments tests truthiness on those strings.
- Joi.NumberBase: a JSON number is a finite `real` (`Json.Value.Num`), so `Infinity`, which `JSON.parse` makes of `1e999` and numeric conversion makes of `"1e999"`, is not representable, and Joi's `number.infinity` error is not modelled.
- AppointmentsController.CreateAppointment: a JSON array `date` is one opaque value here and fails at `date.includes`. In JavaScript arrays do have `includes`, so such a request would go on to `new Date(array)`.
- AppointmentsController.CreateAppointment: the doctor lookup and the insert both read `doctor_id` through one conversion, `Services.bindId`. MySQL may convert a bound value differently when comparing and when storing (a fraction, say); that difference is not modelled.
- AppointmentsController.EncryptReason: `encrypt.js` is not part of this model, so what the cipher does with a missing or non-text reason (a ciphertext or a thrown error) is the unconstrained parameter `Services.encryptOther`.
