/** `src/controller/userController.js`: patient accounts. Registration
    inserts an inactive row and emits the activation e-mail; activation
    flips `isActive` for the token's address; login checks existence, then
    activation, then (as written) a call that cannot reject the password. */
module UserController {
  import opened Wrappers
  import opened Platform
  import opened Errors
  import opened Tables
  import opened EmailEvent

  /** The body fields `registerUser` reads. */
  datatype Registration = Registration(name: string, email: string, password: string, phone: string)

  /** The body fields `loginUser` reads. */
  datatype Credentials = Credentials(emailOrPhone: string, password: string)

  /** A user as the API shows it: no password, phone decrypted. */
  datatype UserView = UserView(id: nat, name: string, email: string, phone: string)

  datatype Session = Session(user: UserView, token: string)

  function View(s: Services, u: UserRow): (v: UserView)
    ensures v.id == u.id && v.name == u.name && v.email == u.email && v.phone == s.decrypt(u.phone)
  {
    UserView(u.id, u.name, u.email, s.decrypt(u.phone))
  }

  /** No two users share an address, and no two a phone ciphertext. */
  ghost predicate UniqueContacts(users: seq<UserRow>) {
    forall i, j :: 0 <= i < j < |users| ==> users[i].email != users[j].email && users[i].phone != users[j].phone
  }

  /** The row `registerUser` inserts: inactive, phone encrypted, password
      hashed, and the column's default role, since the insert names no role. */
  function NewUser(s: Services, id: nat, defaultRole: Option<string>, r: Registration): UserRow {
    UserRow(id, r.name, r.email, s.encrypt(r.phone), s.hash(r.password), false, defaultRole)
  }

  /** What `registerUser` promises, stated over the whole table: an address
      already in use is reported first, then a phone already in use; otherwise
      exactly one row is appended. */
  function RegisterUserSpec(s: Services, users: seq<UserRow>, nextId: nat, defaultRole: Option<string>, r: Registration): Result<seq<UserRow>, Failure> {
    if exists u :: u in users && u.email == r.email then Err(DuplicateEmail(UserAccount))
    else if exists u :: u in users && u.phone == s.encrypt(r.phone) then Err(DuplicatePhone(UserAccount))
    else Ok(users + [NewUser(s, nextId, defaultRole, r)])
  }

  /** `registerUser`: one `SELECT … WHERE email = ? OR phone = ?`, the two
      `find`s in the order the source tests them, then the insert and the
      `sendEmail` event. On a rejection nothing changes and nothing is sent. */
  method RegisterUser(db: Database, bus: EmailEvents, s: Services, r: Registration) returns (res: Result<(), Failure>)
    requires db.Valid()
    modifies db`users, db`nextUserId, bus
    ensures db.Valid()
    ensures match RegisterUserSpec(s, old(db.users), old(db.nextUserId), db.defaultRole, r)
      case Ok(rows) =>
        && res == Ok(()) && db.users == rows && db.nextUserId == old(db.nextUserId) + 1
        && bus.emitted == old(bus.emitted) + [Notice(r.email, r.name, None)]
      case Err(e) =>
        && res == Err(e) && db.users == old(db.users) && db.nextUserId == old(db.nextUserId)
        && bus.emitted == old(bus.emitted)
  {
    var encryptedPhone := s.encrypt(r.phone);
    var sameEmail := (u: UserRow) => u.email == r.email;
    var samePhone := (u: UserRow) => u.phone == encryptedPhone;
    var existing := Where(db.users, Either(sameEmail, samePhone));
    ScreenFinds(db.users, sameEmail, samePhone);
    if |existing| > 0 {
      var existingEmail := Find(existing, sameEmail);
      var existingPhone := Find(existing, samePhone);
      if existingEmail.Some? {
        assert RegisterUserSpec(s, db.users, db.nextUserId, db.defaultRole, r) == Err(DuplicateEmail(UserAccount));
        return Err(DuplicateEmail(UserAccount));
      }
      if existingPhone.Some? {
        assert RegisterUserSpec(s, db.users, db.nextUserId, db.defaultRole, r) == Err(DuplicatePhone(UserAccount));
        return Err(DuplicatePhone(UserAccount));
      }
    }
    var hashedPassword := s.hash(r.password);
    var row := UserRow(db.nextUserId, r.name, r.email, encryptedPhone, hashedPassword, false, db.defaultRole);
    assert row == NewUser(s, db.nextUserId, db.defaultRole, r);
    assert RegisterUserSpec(s, db.users, db.nextUserId, db.defaultRole, r) == Ok(db.users + [row]);
    KeyedAppend(db.users, UserId, db.nextUserId, row);
    db.users := db.users + [row];
    db.nextUserId := db.nextUserId + 1;
    bus.Emit(Notice(r.email, r.name, None));
    res := Ok(());
  }

  /** Registration keeps addresses and phones unique. */
  lemma RegisterKeepsContactsUnique(s: Services, users: seq<UserRow>, nextId: nat, defaultRole: Option<string>, r: Registration)
    requires UniqueContacts(users)
    requires RegisterUserSpec(s, users, nextId, defaultRole, r).Ok?
    ensures UniqueContacts(RegisterUserSpec(s, users, nextId, defaultRole, r).value)
  {
    var rows := RegisterUserSpec(s, users, nextId, defaultRole, r).value;
    forall i, j | 0 <= i < j < |rows|
      ensures rows[i].email != rows[j].email && rows[i].phone != rows[j].phone
    {
      if j == |users| {
        assert rows[i] == users[i] && rows[i] in users;
      }
    }
  }

  /** The `WHERE email = ? OR phone = ?` of both lookups: the address matches, or the input's ciphertext matches the phone. */
  predicate Identifies(s: Services, u: UserRow, emailOrPhone: string) {
    u.email == emailOrPhone || u.phone == s.encrypt(emailOrPhone)
  }

  /** `loginUser`, as written. The first matching row decides; an inactive
      account is refused before the password is looked at; and the password
      test is `hashing({plaintext: password, hash})`, which hashes the
      password and ignores `hash`, so it rejects only if bcrypt returned an
      empty string. */
  function LoginUser(s: Services, users: seq<UserRow>, c: Credentials, now: nat): (r: Result<Session, Failure>)
    ensures (forall i :: 0 <= i < |users| ==> !Identifies(s, users[i], c.emailOrPhone)) ==> r == Err(InvalidCredentials)
    ensures forall k :: 0 <= k < |users| && Identifies(s, users[k], c.emailOrPhone)
                        && (forall j :: 0 <= j < k ==> !Identifies(s, users[j], c.emailOrPhone)) ==>
      r == (if !users[k].isActive then Err(AccountNotActivated)
            else if s.hash(c.password) == "" then Err(InvalidCredentials)
            else Ok(Session(View(s, users[k]), s.sign(SessionClaims(users[k]), SessionTtl, now))))
  {
    var matches := (u: UserRow) => Identifies(s, u, c.emailOrPhone);
    WhereMembers(users, matches);
    var userResult := Where(users, matches);
    if |userResult| == 0 then Err(InvalidCredentials)
    else
      var user := userResult[0];
      if !user.isActive then Err(AccountNotActivated)
      else
        var isPasswordValid := s.hash(c.password);
        if isPasswordValid == "" then Err(InvalidCredentials)
        else Ok(Session(View(s, user), s.sign(SessionClaims(user), SessionTtl, now)))
  }

  /** The session token's payload: `{id, email, phone, role}`, the phone as stored (ciphertext). */
  function SessionClaims(u: UserRow): (c: Claims)
    ensures c.id == Some(u.id) && c.email == u.email && c.phone == Some(u.phone) && c.role == u.role
  {
    Claims(Some(u.id), u.email, Some(u.phone), u.role)
  }

  /** Since bcrypt's hash is never empty, the password plays no part in the outcome. */
  lemma LoginUserIgnoresPassword(s: Services, users: seq<UserRow>, e: string, p1: string, p2: string, now: nat)
    requires HashesNonEmpty(s)
    ensures LoginUser(s, users, Credentials(e, p1), now) == LoginUser(s, users, Credentials(e, p2), now)
  {
    assert s.hash(p1) != "" && s.hash(p2) != "";
  }

  /** With an active first match, any password logs in, and the session token
      verifies for an hour to the account's id, address, stored phone and role. */
  lemma LoginUserAcceptsAnyPassword(s: Services, users: seq<UserRow>, c: Credentials, now: nat, later: nat, k: nat)
    requires HashesNonEmpty(s) && TokensVerify(s)
    requires k < |users| && Identifies(s, users[k], c.emailOrPhone) && users[k].isActive
    requires forall j :: 0 <= j < k ==> !Identifies(s, users[j], c.emailOrPhone)
    requires now <= later < now + SessionTtl
    ensures LoginUser(s, users, c, now).Ok?
    ensures LoginUser(s, users, c, now).value.user == View(s, users[k])
    ensures s.verify(LoginUser(s, users, c, now).value.token, later) == Some(SessionClaims(users[k]))
  {
    assert s.hash(c.password) != "";
  }

  /** Every user with the token's address, marked active. */
  function SetActive(users: seq<UserRow>, email: string): seq<UserRow> {
    seq(|users|, i requires 0 <= i < |users| => if users[i].email == email then users[i].(isActive := true) else users[i])
  }

  /** What `activateAccount` promises: a token that does not verify (bad,
      expired, or any other failure in the `try`) is reported as an invalid
      activation token; an address with no account as "User not found";
      otherwise every account with that address becomes active. */
  function ActivateSpec(s: Services, users: seq<UserRow>, token: string, now: nat): Result<seq<UserRow>, Failure> {
    match s.verify(token, now)
    case None => Err(InvalidActivationToken)
    case Some(decoded) =>
      if exists u :: u in users && u.email == decoded.email then Ok(SetActive(users, decoded.email))
      else Err(AccountNotFound(UserAccount))
  }

  /** `activateAccount`: verify the token, select by its address, update. */
  method ActivateAccount(db: Database, s: Services, token: string, now: nat) returns (res: Result<(), Failure>)
    requires db.Valid()
    modifies db`users
    ensures db.Valid()
    ensures match ActivateSpec(s, old(db.users), token, now)
      case Ok(rows) => res == Ok(()) && db.users == rows
      case Err(e) => res == Err(e) && db.users == old(db.users)
  {
    var decoded := s.verify(token, now);
    if decoded.None? {
      return Err(InvalidActivationToken);
    }
    var email := decoded.value.email;
    var withEmail := (u: UserRow) => u.email == email;
    var userResult := Where(db.users, withEmail);
    WhereMembers(db.users, withEmail);
    if |userResult| == 0 {
      return Err(AccountNotFound(UserAccount));
    }
    assert userResult[0] in db.users;
    var rows := SetActive(db.users, email);
    KeyedSameKeys(db.users, rows, UserId, db.nextUserId);
    db.users := rows;
    res := Ok(());
  }

  /** Activating twice is the same as activating once. */
  lemma ActivateIdempotent(s: Services, users: seq<UserRow>, token: string, now: nat)
    requires ActivateSpec(s, users, token, now).Ok?
    ensures ActivateSpec(s, ActivateSpec(s, users, token, now).value, token, now) == ActivateSpec(s, users, token, now)
  {
    var email := s.verify(token, now).value.email;
    var once := SetActive(users, email);
    var u :| u in users && u.email == email;
    var i :| 0 <= i < |users| && users[i] == u;
    assert once[i] in once && once[i].email == email;
    assert SetActive(once, email) == once;
  }

  /** Activation changes nothing but the `isActive` flag of the accounts with that address. */
  lemma ActivateTouchesOnlyThatAddress(s: Services, users: seq<UserRow>, token: string, now: nat, i: nat)
    requires ActivateSpec(s, users, token, now).Ok? && i < |users|
    ensures var rows := ActivateSpec(s, users, token, now).value;
      && |rows| == |users|
      && rows[i].(isActive := users[i].isActive) == users[i]
      && (rows[i] != users[i] ==> rows[i].email == s.verify(token, now).value.email && rows[i].isActive)
  {
  }

  /** `getOneUserById`: the first row with the id, shown without its password. */
  function GetOneUserById(s: Services, users: seq<UserRow>, id: nat): (r: Result<UserView, Failure>)
    ensures r.Err? <==> forall i :: 0 <= i < |users| ==> users[i].id != id
    ensures r.Err? ==> r.error == AccountNotFound(UserAccount)
    ensures forall k :: 0 <= k < |users| && users[k].id == id && (forall j :: 0 <= j < k ==> users[j].id != id) ==>
      r == Ok(View(s, users[k]))
  {
    var withId := (u: UserRow) => u.id == id;
    WhereMembers(users, withId);
    var userResult := Where(users, withId);
    if |userResult| == 0 then Err(AccountNotFound(UserAccount)) else Ok(View(s, userResult[0]))
  }

  /** `getallUsers`: every row, in table order, shown without its password. */
  function GetAllUsers(s: Services, users: seq<UserRow>): (all: seq<UserView>)
    ensures |all| == |users|
    ensures forall i :: 0 <= i < |users| ==> all[i].id == users[i].id && all[i].email == users[i].email
    ensures forall i :: 0 <= i < |users| ==> all[i] == View(s, users[i])
  {
    seq(|users|, i requires 0 <= i < |users| => View(s, users[i]))
  }

  /** A registered user can be looked up by the id the insert assigned, with
      the phone number they registered (the cipher round-trips). */
  lemma RegisteredUserLookup(s: Services, users: seq<UserRow>, nextId: nat, defaultRole: Option<string>, r: Registration)
    requires CipherRoundTrip(s) && KeyedBelow(users, UserId, nextId)
    requires RegisterUserSpec(s, users, nextId, defaultRole, r).Ok?
    ensures GetOneUserById(s, RegisterUserSpec(s, users, nextId, defaultRole, r).value, nextId)
         == Ok(UserView(nextId, r.name, r.email, r.phone))
  {
    var rows := RegisterUserSpec(s, users, nextId, defaultRole, r).value;
    assert forall j :: 0 <= j < |users| ==> rows[j].id == UserId(users[j]) < nextId;
    assert s.decrypt(s.encrypt(r.phone)) == r.phone;
    assert rows[|users|] == NewUser(s, nextId, defaultRole, r);
  }

  /** After a registration the list shows every earlier user as before, then
      the new one, with the phone number they registered. */
  lemma RegisteredUserListed(s: Services, users: seq<UserRow>, nextId: nat, defaultRole: Option<string>, r: Registration)
    requires CipherRoundTrip(s)
    requires RegisterUserSpec(s, users, nextId, defaultRole, r).Ok?
    ensures var all := GetAllUsers(s, RegisterUserSpec(s, users, nextId, defaultRole, r).value);
      && |all| == |users| + 1
      && all[..|users|] == GetAllUsers(s, users)
      && all[|users|] == UserView(nextId, r.name, r.email, r.phone)
  {
    var rows := RegisterUserSpec(s, users, nextId, defaultRole, r).value;
    assert s.decrypt(s.encrypt(r.phone)) == r.phone;
    assert forall j :: 0 <= j < |users| ==> rows[j] == users[j];
  }
}
