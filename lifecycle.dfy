/** The patient account's life across handlers: `registerUser` inserts the
    row and e-mails a link; the token in that link activates the account
    through `activateAccount`; `loginUser` then issues a session token that
    `authMiddleware` accepts as the new user. */
module Lifecycle {
  import opened Wrappers
  import opened JsString
  import opened Platform
  import opened Errors
  import opened Tables
  import opened EmailEvent
  import opened UserController
  import opened AuthMiddleware
  import opened DepartmentsController

  /** The row registration inserts, once activated: its role is the column's default. */
  function ActivatedRow(s: Services, id: nat, defaultRole: Option<string>, r: Registration): (u: UserRow)
    ensures u.id == id && u.email == r.email && u.isActive && u.role == defaultRole
  {
    NewUser(s, id, defaultRole, r).(isActive := true)
  }

  /** Register, follow the e-mailed link within 24 hours, log in with any
      password, and call an authenticated route within the hour: each step
      succeeds, and the route sees the new user's id, address and role.
      Login also matches phones, so no stored phone may be the cipher of the
      address used to log in. */
  lemma RegisterActivateLoginAuthenticate(s: Services, users: seq<UserRow>, nextId: nat, defaultRole: Option<string>,
                                          r: Registration, password: string, t0: nat, t1: nat, t2: nat, t3: nat)
    requires TokensVerify(s) && TokensUrlSafe(s) && TokensHeaderSafe(s) && HashesNonEmpty(s)
    requires RegisterUserSpec(s, users, nextId, defaultRole, r).Ok?
    requires forall i :: 0 <= i < |users| ==> users[i].phone != s.encrypt(r.email)
    requires t0 <= t1 < t0 + ActivationTtl && t2 <= t3 < t2 + SessionTtl
    ensures var registered := RegisterUserSpec(s, users, nextId, defaultRole, r).value;
      var parts := Split(OnSendEmail(s, Notice(r.email, r.name, None), t0).link, '/');
      && |parts| == 6
      && ActivateSpec(s, registered, parts[5], t1) == Ok(users + [ActivatedRow(s, nextId, defaultRole, r)])
      && var login := LoginUser(s, users + [ActivatedRow(s, nextId, defaultRole, r)], Credentials(r.email, password), t2);
      && login.Ok?
      && login.value.user == View(s, ActivatedRow(s, nextId, defaultRole, r))
      && AuthSpec(s, Some("Bearer " + login.value.token), t3) == Ok(SessionClaims(ActivatedRow(s, nextId, defaultRole, r)))
  {
    RegisteredActivates(s, users, nextId, defaultRole, r, t0, t1);
    ActivatedLogsIn(s, users, nextId, defaultRole, r, password, t2, t3);
  }

  /** The link e-mailed on registration activates the new row within 24 hours. */
  lemma RegisteredActivates(s: Services, users: seq<UserRow>, nextId: nat, defaultRole: Option<string>,
                            r: Registration, t0: nat, t1: nat)
    requires TokensVerify(s) && TokensUrlSafe(s)
    requires RegisterUserSpec(s, users, nextId, defaultRole, r).Ok?
    requires t0 <= t1 < t0 + ActivationTtl
    ensures var registered := RegisterUserSpec(s, users, nextId, defaultRole, r).value;
      var parts := Split(OnSendEmail(s, Notice(r.email, r.name, None), t0).link, '/');
      && |parts| == 6
      && ActivateSpec(s, registered, parts[5], t1) == Ok(users + [ActivatedRow(s, nextId, defaultRole, r)])
  {
    var n := Notice(r.email, r.name, None);
    assert UserType(None) == "user";
    EmailedTokenVerifies(s, n, t0, t1);
    ActivatesNewRow(s, users, nextId, defaultRole, r);
  }

  /** Activating the new address flips only the row registration added. */
  lemma ActivatesNewRow(s: Services, users: seq<UserRow>, nextId: nat, defaultRole: Option<string>, r: Registration)
    requires RegisterUserSpec(s, users, nextId, defaultRole, r).Ok?
    ensures var registered := RegisterUserSpec(s, users, nextId, defaultRole, r).value;
      && (exists u :: u in registered && u.email == r.email)
      && SetActive(registered, r.email) == users + [ActivatedRow(s, nextId, defaultRole, r)]
  {
    var row := NewUser(s, nextId, defaultRole, r);
    var registered := users + [row];
    assert row in registered && row.email == r.email;
    assert forall i :: 0 <= i < |users| ==> users[i].email != r.email by {
      assert forall i :: 0 <= i < |users| ==> users[i] in users;
    }
  }

  /** Once activated, the new user logs in with any password by address, and
      the session token authenticates them for the next hour. */
  lemma ActivatedLogsIn(s: Services, users: seq<UserRow>, nextId: nat, defaultRole: Option<string>,
                        r: Registration, password: string, t2: nat, t3: nat)
    requires TokensVerify(s) && TokensHeaderSafe(s) && HashesNonEmpty(s)
    requires RegisterUserSpec(s, users, nextId, defaultRole, r).Ok?
    requires forall i :: 0 <= i < |users| ==> users[i].phone != s.encrypt(r.email)
    requires t2 <= t3 < t2 + SessionTtl
    ensures var login := LoginUser(s, users + [ActivatedRow(s, nextId, defaultRole, r)], Credentials(r.email, password), t2);
      && login.Ok?
      && login.value.user == View(s, ActivatedRow(s, nextId, defaultRole, r))
      && AuthSpec(s, Some("Bearer " + login.value.token), t3) == Ok(SessionClaims(ActivatedRow(s, nextId, defaultRole, r)))
  {
    var activated := users + [ActivatedRow(s, nextId, defaultRole, r)];
    var k := |users|;
    var c := Credentials(r.email, password);
    assert activated[k] == ActivatedRow(s, nextId, defaultRole, r);
    assert forall j :: 0 <= j < k ==> users[j].email != r.email by {
      assert forall j :: 0 <= j < k ==> users[j] in users;
    }
    assert forall j :: 0 <= j < k ==> !Identifies(s, activated[j], c.emailOrPhone) by {
      assert forall j :: 0 <= j < k ==> activated[j] == users[j];
    }
    LoginUserAcceptsAnyPassword(s, activated, c, t2, t3, k);
    var claims := SessionClaims(ActivatedRow(s, nextId, defaultRole, r));
    assert LoginUser(s, activated, c, t2).value.token == s.sign(claims, SessionTtl, t2);
    SignedTokenAuthenticates(s, claims, t2, t3);
  }

  /** Once registered, the same address is refused, and so is the same phone
      under another address. */
  lemma RegisterTwiceRefused(s: Services, users: seq<UserRow>, nextId: nat, defaultRole: Option<string>, r: Registration, r': Registration)
    requires RegisterUserSpec(s, users, nextId, defaultRole, r).Ok?
    ensures var registered := RegisterUserSpec(s, users, nextId, defaultRole, r).value;
      && (r'.email == r.email ==> RegisterUserSpec(s, registered, nextId + 1, defaultRole, r') == Err(DuplicateEmail(UserAccount)))
      && (r'.phone == r.phone && (forall u :: u in registered ==> u.email != r'.email) ==>
            RegisterUserSpec(s, registered, nextId + 1, defaultRole, r') == Err(DuplicatePhone(UserAccount)))
  {
    var row := NewUser(s, nextId, defaultRole, r);
    assert row in RegisterUserSpec(s, users, nextId, defaultRole, r).value;
  }

  /** The account a registration creates carries the column's default role
      into its session, so unless that default is `"admin"` the new user is
      refused every department change. */
  lemma RegisteredUserNotAdmin(s: Services, id: nat, defaultRole: Option<string>, r: Registration, t: nat,
                               departments: seq<DepartmentRow>, nextDepartmentId: nat, did: nat,
                               name: Option<string>, description: Option<string>, file: Option<string>)
    requires TokensVerify(s) && TokensHeaderSafe(s) && defaultRole != Some("admin")
    ensures var claims := SessionClaims(ActivatedRow(s, id, defaultRole, r));
      && AuthSpec(s, Some("Bearer " + s.sign(claims, SessionTtl, t)), t) == Ok(claims)
      && AddDepartmentSpec(departments, nextDepartmentId, claims.role, name, description, file) == Err(NotAuthorized)
      && UpdateDepartmentSpec(departments, claims.role, did, name, description, file) == Err(NotAuthorized)
      && DeleteDepartmentSpec(departments, claims.role, did) == Err(NotAuthorized)
  {
    var claims := SessionClaims(ActivatedRow(s, id, defaultRole, r));
    SignedTokenAuthenticates(s, claims, t, t);
    NonAdminRefused(departments, nextDepartmentId, claims.role, did, name, description, file);
  }
}
