/** `src/utils/emails/email.event.js`: the `sendEmail` event the register
    handlers emit, and what its listener builds from it: a 24-hour activation
    token for the address and the link that carries it. */
module EmailEvent {
  import opened Wrappers
  import opened Platform
  import opened JsString

  /** The object passed to `emailEvent.emit("sendEmail", …)`. */
  datatype Notice = Notice(email: string, name: string, userType: Option<string>)

  /** The event emitter, reduced to the list of events emitted so far. */
  class EmailEvents {
    var emitted: seq<Notice>

    constructor ()
      ensures emitted == []
    {
      emitted := [];
    }

    /** `emailEvent.emit("sendEmail", n)` */
    method Emit(n: Notice)
      modifies this
      ensures emitted == old(emitted) + [n]
    {
      emitted := emitted + [n];
    }
  }

  datatype Subject = Register

  /** The message handed to `sendEmail`: recipient, subject, and the link and
      name the `signup` template is filled with. */
  datatype Email = Email(to: string, subject: Subject, link: string, greeting: string)

  const BaseUrl: string := "http://localhost:3000/"
  const ActivatePath: string := "/activate_account/"

  /** The activation token's payload: the address alone. */
  function ActivationClaims(email: string): (c: Claims)
    ensures c.email == email && c.id.None? && c.phone.None? && c.role.None?
  {
    Claims(None, email, None, None)
  }

  /** `user.userType || 'user'`: a falsy (absent or empty) type falls back to `"user"`. */
  function UserType(userType: Option<string>): (t: string)
    ensures t != ""
    ensures userType.Some? && userType.value != "" ==> t == userType.value
    ensures userType.None? || userType.value == "" ==> t == "user"
  {
    match userType
    case Some(t) => if t != "" then t else "user"
    case None => "user"
  }

  function ActivationLink(userType: string, token: string): string {
    BaseUrl + userType + ActivatePath + token
  }

  /** What the listener for `sendEmail` sends for notice `n` at time `now`. */
  function OnSendEmail(s: Services, n: Notice, now: nat): (e: Email)
    ensures e.to == n.email && e.subject == Register && e.greeting == n.name
    ensures e.link == ActivationLink(UserType(n.userType), s.sign(ActivationClaims(n.email), ActivationTtl, now))
  {
    var token := s.sign(ActivationClaims(n.email), ActivationTtl, now);
    Email(n.email, Register, ActivationLink(UserType(n.userType), token), n.name)
  }

  lemma SchemeSegments(rest: string)
    ensures Split("http:" + "/" + ("" + "/" + rest), '/') == ["http:", ""] + Split(rest, '/')
  {
    var s1 := "" + "/" + rest;
    SplitCons("", '/', rest);
    SplitCons("http:", '/', s1);
  }

  lemma OriginSegments(path: string)
    ensures Split("http:" + "/" + ("" + "/" + ("localhost:3000" + "/" + path)), '/')
         == ["http:", "", "localhost:3000"] + Split(path, '/')
  {
    SchemeSegments("localhost:3000" + "/" + path);
    SplitCons("localhost:3000", '/', path);
  }

  lemma PathSegments(userType: string, token: string)
    requires '/' !in userType && '/' !in token
    ensures Split(userType + ActivatePath + token, '/') == [userType, "activate_account", token]
  {
    var rest := "activate_account" + "/" + token;
    SplitCons("activate_account", '/', token);
    ActivatePathPieces();
    assert userType + ActivatePath + token == userType + "/" + rest;
    SplitCons(userType, '/', rest);
  }

  lemma BaseUrlPieces()
    ensures BaseUrl == "http:" + "/" + ("" + "/" + ("localhost:3000" + "/"))
  {
  }

  lemma ActivatePathPieces()
    ensures ActivatePath == "/" + ("activate_account" + "/")
  {
  }

  lemma LinkNested(userType: string, token: string)
    ensures ActivationLink(userType, token)
         == "http:" + "/" + ("" + "/" + ("localhost:3000" + "/" + (userType + ActivatePath + token)))
  {
    BaseUrlPieces();
  }

  /** The link's path segments: the user type, `activate_account`, then the token. */
  lemma ActivationLinkSegments(userType: string, token: string)
    requires '/' !in userType && '/' !in token
    ensures Split(ActivationLink(userType, token), '/')
         == ["http:", "", "localhost:3000", userType, "activate_account", token]
  {
    var path := userType + ActivatePath + token;
    LinkNested(userType, token);
    OriginSegments(path);
    PathSegments(userType, token);
  }

  /** The token in the emailed link verifies, for 24 hours, to the address it was sent to. */
  lemma EmailedTokenVerifies(s: Services, n: Notice, now: nat, later: nat)
    requires TokensVerify(s) && TokensUrlSafe(s)
    requires '/' !in UserType(n.userType)
    requires now <= later < now + ActivationTtl
    ensures var parts := Split(OnSendEmail(s, n, now).link, '/');
      && |parts| == 6
      && parts[5] == s.sign(ActivationClaims(n.email), ActivationTtl, now)
      && s.verify(parts[5], later) == Some(ActivationClaims(n.email))
  {
    var token := s.sign(ActivationClaims(n.email), ActivationTtl, now);
    ActivationLinkSegments(UserType(n.userType), token);
  }

  /** The link names the notice's user type as its first path segment. */
  lemma LinkNamesUserType(s: Services, n: Notice, now: nat)
    requires TokensUrlSafe(s) && '/' !in UserType(n.userType)
    ensures var parts := Split(OnSendEmail(s, n, now).link, '/');
      |parts| == 6 && parts[3] == UserType(n.userType)
  {
    ActivationLinkSegments(UserType(n.userType), s.sign(ActivationClaims(n.email), ActivationTtl, now));
  }

  /** A doctor's notice yields a `/doctor/` link; a notice without a type a `/user/` link. */
  lemma LinkTypeByRegistration(s: Services, email: string, name: string, now: nat)
    requires TokensUrlSafe(s)
    ensures var parts := Split(OnSendEmail(s, Notice(email, name, Some("doctor")), now).link, '/');
      |parts| == 6 && parts[3] == "doctor"
    ensures var parts := Split(OnSendEmail(s, Notice(email, name, None), now).link, '/');
      |parts| == 6 && parts[3] == "user"
  {
    assert UserType(Some("doctor")) == "doctor";
    LinkNamesUserType(s, Notice(email, name, Some("doctor")), now);
    LinkNamesUserType(s, Notice(email, name, None), now);
  }
}
