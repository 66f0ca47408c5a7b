/** `src/controller/DoctorController.js`: doctor accounts. Like the patient
    accounts, but with profile fields and an optional uploaded image, a
    `sendEmail` event typed `'doctor'`, a real bcrypt comparison at login,
    and a session token without a role. */
module DoctorController {
  import opened Wrappers
  import opened Platform
  import opened Errors
  import opened Tables
  import opened EmailEvent

  /** The body fields `addDoctor` reads, with the uploaded file's name (`req.file.filename`) if any. */
  datatype DoctorForm = DoctorForm(name: string, specialty: string, email: string, phone: string, password: string,
                                   description: string, experienceYears: int, file: Option<string>)

  /** The body fields `doctorLogin` reads. */
  datatype Credentials = Credentials(emailOrPhone: string, password: string)

  /** The doctor object of the login response. */
  datatype LoginView = LoginView(id: nat, name: string, email: string, phone: string, specialty: string,
                                 image: Option<string>)

  datatype Session = Session(doctor: LoginView, token: string)

  /** A doctor as `getOneDoctorById` and `getallDoctors` show it: every column but the password, phone decrypted. */
  datatype DoctorView = DoctorView(id: nat, name: string, email: string, phone: string, specialty: string,
                                   description: string, experienceYears: int, image: Option<string>, isActive: bool)

  function View(s: Services, d: DoctorRow): (v: DoctorView)
    ensures v.id == d.id && v.name == d.name && v.email == d.email && v.phone == s.decrypt(d.phone)
    ensures v.specialty == d.specialty && v.description == d.description && v.experienceYears == d.experienceYears
    ensures v.image == d.image && v.isActive == d.isActive
  {
    DoctorView(d.id, d.name, d.email, s.decrypt(d.phone), d.specialty, d.description, d.experienceYears, d.image, d.isActive)
  }

  /** No two doctors share an address, and no two a phone ciphertext. */
  ghost predicate UniqueContacts(doctors: seq<DoctorRow>) {
    forall i, j :: 0 <= i < j < |doctors| ==> doctors[i].email != doctors[j].email && doctors[i].phone != doctors[j].phone
  }

  /** The row `addDoctor` inserts: inactive, phone encrypted, password hashed, image the upload's name or NULL. */
  function NewDoctor(s: Services, id: nat, f: DoctorForm): DoctorRow {
    DoctorRow(id, f.name, f.specialty, f.email, s.encrypt(f.phone), s.hash(f.password), f.file, f.description,
              f.experienceYears, false)
  }

  /** What `addDoctor` promises: an address in use is reported first, then a
      phone in use; otherwise exactly one row is appended. */
  function AddDoctorSpec(s: Services, doctors: seq<DoctorRow>, nextId: nat, f: DoctorForm): Result<seq<DoctorRow>, Failure> {
    if exists d :: d in doctors && d.email == f.email then Err(DuplicateEmail(DoctorAccount))
    else if exists d :: d in doctors && d.phone == s.encrypt(f.phone) then Err(DuplicatePhone(DoctorAccount))
    else Ok(doctors + [NewDoctor(s, nextId, f)])
  }

  /** `addDoctor`: the lookup, the two `find`s, the insert, and the `sendEmail`
      event with `userType: 'doctor'`. A rejection changes nothing and sends nothing. */
  method AddDoctor(db: Database, bus: EmailEvents, s: Services, f: DoctorForm) returns (res: Result<(), Failure>)
    requires db.Valid()
    modifies db`doctors, db`nextDoctorId, bus
    ensures db.Valid()
    ensures match AddDoctorSpec(s, old(db.doctors), old(db.nextDoctorId), f)
      case Ok(rows) =>
        && res == Ok(()) && db.doctors == rows && db.nextDoctorId == old(db.nextDoctorId) + 1
        && bus.emitted == old(bus.emitted) + [Notice(f.email, f.name, Some("doctor"))]
      case Err(e) =>
        && res == Err(e) && db.doctors == old(db.doctors) && db.nextDoctorId == old(db.nextDoctorId)
        && bus.emitted == old(bus.emitted)
  {
    var encryptedPhone := s.encrypt(f.phone);
    var image := f.file;
    var sameEmail := (d: DoctorRow) => d.email == f.email;
    var samePhone := (d: DoctorRow) => d.phone == encryptedPhone;
    var existing := Where(db.doctors, Either(sameEmail, samePhone));
    ScreenFinds(db.doctors, sameEmail, samePhone);
    if |existing| > 0 {
      var existingEmail := Find(existing, sameEmail);
      var existingPhone := Find(existing, samePhone);
      if existingEmail.Some? {
        assert AddDoctorSpec(s, db.doctors, db.nextDoctorId, f) == Err(DuplicateEmail(DoctorAccount));
        return Err(DuplicateEmail(DoctorAccount));
      }
      if existingPhone.Some? {
        assert AddDoctorSpec(s, db.doctors, db.nextDoctorId, f) == Err(DuplicatePhone(DoctorAccount));
        return Err(DuplicatePhone(DoctorAccount));
      }
    }
    var hashedPassword := s.hash(f.password);
    var row := DoctorRow(db.nextDoctorId, f.name, f.specialty, f.email, encryptedPhone, hashedPassword, image,
                         f.description, f.experienceYears, false);
    assert row == NewDoctor(s, db.nextDoctorId, f);
    assert AddDoctorSpec(s, db.doctors, db.nextDoctorId, f) == Ok(db.doctors + [row]);
    KeyedAppend(db.doctors, DoctorId, db.nextDoctorId, row);
    db.doctors := db.doctors + [row];
    db.nextDoctorId := db.nextDoctorId + 1;
    bus.Emit(Notice(f.email, f.name, Some("doctor")));
    res := Ok(());
  }

  /** Adding a doctor keeps addresses and phones unique. */
  lemma AddDoctorKeepsContactsUnique(s: Services, doctors: seq<DoctorRow>, nextId: nat, f: DoctorForm)
    requires UniqueContacts(doctors)
    requires AddDoctorSpec(s, doctors, nextId, f).Ok?
    ensures UniqueContacts(AddDoctorSpec(s, doctors, nextId, f).value)
  {
    var rows := AddDoctorSpec(s, doctors, nextId, f).value;
    forall i, j | 0 <= i < j < |rows|
      ensures rows[i].email != rows[j].email && rows[i].phone != rows[j].phone
    {
      if j == |doctors| {
        assert rows[i] == doctors[i] && rows[i] in doctors;
      }
    }
  }

  /** `WHERE email = ? OR phone = ?` with the input and its ciphertext. */
  predicate Identifies(s: Services, d: DoctorRow, emailOrPhone: string) {
    d.email == emailOrPhone || d.phone == s.encrypt(emailOrPhone)
  }

  /** The session token's payload: `{id, email, phone}`, the phone as stored, no role. */
  function SessionClaims(d: DoctorRow): (c: Claims)
    ensures c.id == Some(d.id) && c.email == d.email && c.phone == Some(d.phone) && c.role.None?
  {
    Claims(Some(d.id), d.email, Some(d.phone), None)
  }

  function ShowLogin(s: Services, d: DoctorRow): (v: LoginView)
    ensures v.id == d.id && v.name == d.name && v.email == d.email && v.phone == s.decrypt(d.phone)
    ensures v.specialty == d.specialty && v.image == d.image
  {
    LoginView(d.id, d.name, d.email, s.decrypt(d.phone), d.specialty, d.image)
  }

  /** `doctorLogin`: the first matching row decides; an inactive account is
      refused before the password is compared; a wrong password gets the same
      message as an unknown account. */
  function DoctorLogin(s: Services, doctors: seq<DoctorRow>, c: Credentials, now: nat): (r: Result<Session, Failure>)
    ensures (forall i :: 0 <= i < |doctors| ==> !Identifies(s, doctors[i], c.emailOrPhone)) ==> r == Err(InvalidCredentials)
    ensures forall k :: 0 <= k < |doctors| && Identifies(s, doctors[k], c.emailOrPhone)
                        && (forall j :: 0 <= j < k ==> !Identifies(s, doctors[j], c.emailOrPhone)) ==>
      r == (if !doctors[k].isActive then Err(AccountNotActivated)
            else if !s.compare(c.password, doctors[k].password) then Err(InvalidCredentials)
            else Ok(Session(ShowLogin(s, doctors[k]), s.sign(SessionClaims(doctors[k]), SessionTtl, now))))
  {
    var matches := (d: DoctorRow) => Identifies(s, d, c.emailOrPhone);
    WhereMembers(doctors, matches);
    var doctorResult := Where(doctors, matches);
    if |doctorResult| == 0 then Err(InvalidCredentials)
    else
      var doctor := doctorResult[0];
      if !doctor.isActive then Err(AccountNotActivated)
      else if !s.compare(c.password, doctor.password) then Err(InvalidCredentials)
      else Ok(Session(ShowLogin(s, doctor), s.sign(SessionClaims(doctor), SessionTtl, now)))
  }

  /** An unknown account and a wrong password cannot be told apart by the response. */
  lemma WrongPasswordLooksLikeUnknownAccount(s: Services, doctors: seq<DoctorRow>, c: Credentials, now: nat, k: nat)
    requires k < |doctors| && Identifies(s, doctors[k], c.emailOrPhone) && doctors[k].isActive
    requires forall j :: 0 <= j < k ==> !Identifies(s, doctors[j], c.emailOrPhone)
    requires !s.compare(c.password, doctors[k].password)
    ensures DoctorLogin(s, doctors, c, now) == DoctorLogin(s, [], c, now) == Err(InvalidCredentials)
  {
  }

  /** An active doctor who gives the password they registered with logs in,
      and the token verifies for an hour to their id, address and stored phone. */
  lemma DoctorLoginWithRegisteredPassword(s: Services, doctors: seq<DoctorRow>, c: Credentials, now: nat, later: nat, k: nat)
    requires HashesVerify(s) && TokensVerify(s)
    requires k < |doctors| && Identifies(s, doctors[k], c.emailOrPhone) && doctors[k].isActive
    requires forall j :: 0 <= j < k ==> !Identifies(s, doctors[j], c.emailOrPhone)
    requires doctors[k].password == s.hash(c.password)
    requires now <= later < now + SessionTtl
    ensures DoctorLogin(s, doctors, c, now).Ok?
    ensures DoctorLogin(s, doctors, c, now).value.doctor == ShowLogin(s, doctors[k])
    ensures s.verify(DoctorLogin(s, doctors, c, now).value.token, later) == Some(SessionClaims(doctors[k]))
  {
    assert s.compare(c.password, s.hash(c.password));
  }

  /** Every doctor with the token's address, marked active. */
  function SetActive(doctors: seq<DoctorRow>, email: string): seq<DoctorRow> {
    seq(|doctors|, i requires 0 <= i < |doctors| => if doctors[i].email == email then doctors[i].(isActive := true) else doctors[i])
  }

  /** What `activateDoctorAccount` promises: any failure to verify the token is
      an invalid activation token; an unknown address is "Doctor not found";
      otherwise every doctor with the address becomes active. */
  function ActivateSpec(s: Services, doctors: seq<DoctorRow>, token: string, now: nat): Result<seq<DoctorRow>, Failure> {
    match s.verify(token, now)
    case None => Err(InvalidActivationToken)
    case Some(decoded) =>
      if exists d :: d in doctors && d.email == decoded.email then Ok(SetActive(doctors, decoded.email))
      else Err(AccountNotFound(DoctorAccount))
  }

  /** `activateDoctorAccount`: verify, select by address, update. */
  method ActivateDoctorAccount(db: Database, s: Services, token: string, now: nat) returns (res: Result<(), Failure>)
    requires db.Valid()
    modifies db`doctors
    ensures db.Valid()
    ensures match ActivateSpec(s, old(db.doctors), token, now)
      case Ok(rows) => res == Ok(()) && db.doctors == rows
      case Err(e) => res == Err(e) && db.doctors == old(db.doctors)
  {
    var decoded := s.verify(token, now);
    if decoded.None? {
      return Err(InvalidActivationToken);
    }
    var email := decoded.value.email;
    var withEmail := (d: DoctorRow) => d.email == email;
    var doctorResult := Where(db.doctors, withEmail);
    WhereMembers(db.doctors, withEmail);
    if |doctorResult| == 0 {
      return Err(AccountNotFound(DoctorAccount));
    }
    assert doctorResult[0] in db.doctors;
    var rows := SetActive(db.doctors, email);
    KeyedSameKeys(db.doctors, rows, DoctorId, db.nextDoctorId);
    db.doctors := rows;
    res := Ok(());
  }

  /** Activating twice is the same as activating once. */
  lemma ActivateIdempotent(s: Services, doctors: seq<DoctorRow>, token: string, now: nat)
    requires ActivateSpec(s, doctors, token, now).Ok?
    ensures ActivateSpec(s, ActivateSpec(s, doctors, token, now).value, token, now) == ActivateSpec(s, doctors, token, now)
  {
    var email := s.verify(token, now).value.email;
    var once := SetActive(doctors, email);
    var d :| d in doctors && d.email == email;
    var i :| 0 <= i < |doctors| && doctors[i] == d;
    assert once[i] in once && once[i].email == email;
    assert SetActive(once, email) == once;
  }

  /** `getOneDoctorById`: the first row with the id, without its password. */
  function GetOneDoctorById(s: Services, doctors: seq<DoctorRow>, id: nat): (r: Result<DoctorView, Failure>)
    ensures r.Err? <==> forall i :: 0 <= i < |doctors| ==> doctors[i].id != id
    ensures r.Err? ==> r.error == AccountNotFound(DoctorAccount)
    ensures forall k :: 0 <= k < |doctors| && doctors[k].id == id && (forall j :: 0 <= j < k ==> doctors[j].id != id) ==>
      r == Ok(View(s, doctors[k]))
  {
    var withId := (d: DoctorRow) => d.id == id;
    WhereMembers(doctors, withId);
    var doctorResult := Where(doctors, withId);
    if |doctorResult| == 0 then Err(AccountNotFound(DoctorAccount)) else Ok(View(s, doctorResult[0]))
  }

  /** `getallDoctors`: every row, in table order, without its password and with the phone decrypted. */
  function GetAllDoctors(s: Services, doctors: seq<DoctorRow>): (all: seq<DoctorView>)
    ensures |all| == |doctors|
    ensures forall i :: 0 <= i < |doctors| ==> all[i].id == doctors[i].id && all[i].email == doctors[i].email
    ensures forall i :: 0 <= i < |doctors| ==> all[i] == View(s, doctors[i])
  {
    seq(|doctors|, i requires 0 <= i < |doctors| => View(s, doctors[i]))
  }

  /** A doctor just added is listed last, with the phone number given at registration. */
  lemma AddedDoctorListed(s: Services, doctors: seq<DoctorRow>, nextId: nat, f: DoctorForm)
    requires CipherRoundTrip(s)
    requires AddDoctorSpec(s, doctors, nextId, f).Ok?
    ensures var all := GetAllDoctors(s, AddDoctorSpec(s, doctors, nextId, f).value);
      && |all| == |doctors| + 1
      && all[..|doctors|] == GetAllDoctors(s, doctors)
      && all[|doctors|] == DoctorView(nextId, f.name, f.email, f.phone, f.specialty, f.description,
                                      f.experienceYears, f.file, false)
  {
    var rows := AddDoctorSpec(s, doctors, nextId, f).value;
    assert s.decrypt(s.encrypt(f.phone)) == f.phone;
    assert forall j :: 0 <= j < |doctors| ==> rows[j] == doctors[j];
  }
}
