/** `src/utils/errorHandler/authMiddleware.js`: reads the token from the
    `Authorization` header, verifies it, and attaches the caller's claims to
    the request. */
module AuthMiddleware {
  import opened Wrappers
  import opened JsString
  import opened Platform
  import opened Errors
  import opened Http

  /** `req.headers.authorization?.split(' ')[1]`, kept only when it is truthy:
      the second space-separated piece of the header, whatever the first is. */
  function BearerToken(header: Option<string>): (token: Option<string>)
    ensures token.Some? ==> token.value != "" && ' ' !in token.value
    ensures header.Some? && ' ' !in header.value ==> token.None?
  {
    if header.None? then None
    else
      var pieces := Split(header.value, ' ');
      SplitPiecesFree(header.value, ' ');
      if |pieces| >= 2 && pieces[1] != "" then Some(pieces[1]) else None
  }

  /** What the middleware decides: the claims to attach, or the 401 it answers with. */
  function AuthSpec(s: Services, header: Option<string>, now: nat): Result<Claims, Failure> {
    var token := BearerToken(header);
    if token.None? then Err(MissingToken)
    else if s.verify(token.value, now).None? then Err(InvalidToken)
    else Ok(s.verify(token.value, now).value)
  }

  /** `authMiddleware(req, res, next)` at time `now`: on success `req.user`
      holds the decoded claims and `next()` is called; otherwise the request is
      answered and `req.user` is left alone. */
  method Authenticate(s: Services, req: Request, now: nat) returns (out: Outcome)
    modifies req`user
    ensures AuthSpec(s, old(req.authorization), now).Ok? ==>
      out == Next && req.user == Some(AuthSpec(s, old(req.authorization), now).value)
    ensures AuthSpec(s, old(req.authorization), now).Err? ==>
      out == Stop(AuthSpec(s, old(req.authorization), now).error) && req.user == old(req.user)
  {
    var token: Option<string> := None;
    if req.authorization.Some? {
      var pieces := Split(req.authorization.value, ' ');
      if |pieces| >= 2 {
        token := Some(pieces[1]);
      }
    }
    if token.None? || token.value == "" {
      return Stop(MissingToken);
    }
    var decoded := s.verify(token.value, now);
    if decoded.None? {
      return Stop(InvalidToken);
    }
    req.user := decoded;
    return Next;
  }

  /** Any scheme word is accepted before the token: it is never checked. */
  lemma AnySchemeAccepted(scheme: string, token: string)
    requires ' ' !in scheme && ' ' !in token && token != ""
    ensures BearerToken(Some(scheme + [' '] + token)) == Some(token)
  {
    SplitCons(scheme, ' ', token);
    assert Split(token, ' ') == [token];
  }

  /** Whatever follows the token after a further space is ignored. */
  lemma TrailingPiecesIgnored(scheme: string, token: string, rest: string)
    requires ' ' !in scheme && ' ' !in token && token != ""
    ensures BearerToken(Some(scheme + [' '] + (token + [' '] + rest))) == Some(token)
  {
    SplitCons(scheme, ' ', token + [' '] + rest);
    SplitCons(token, ' ', rest);
  }

  /** The 401 "Authorization token is required" depends on the header alone:
      it is given exactly when there is no token, and the token service is not
      consulted. */
  lemma MissingTokenMeans(s: Services, header: Option<string>, now: nat)
    ensures AuthSpec(s, header, now) == Err(MissingToken) <==> BearerToken(header).None?
  {
  }

  /** A header with no space, or none at all, carries no token. */
  lemma NoSpaceNoToken(s: Services, header: Option<string>, now: nat)
    requires header.None? || ' ' !in header.value
    ensures AuthSpec(s, header, now) == Err(MissingToken)
  {
  }

  /** A present token the service rejects is always "Invalid or expired token". */
  lemma RejectedTokenMeans(s: Services, header: Option<string>, now: nat)
    requires BearerToken(header).Some? && s.verify(BearerToken(header).value, now).None?
    ensures AuthSpec(s, header, now) == Err(InvalidToken)
  {
  }

  /** A session token issued at `issued`, sent as `Bearer <token>` before it
      expires, authenticates as the claims it was signed with. */
  lemma SignedTokenAuthenticates(s: Services, claims: Claims, issued: nat, now: nat)
    requires TokensVerify(s) && TokensHeaderSafe(s)
    requires issued <= now < issued + SessionTtl
    ensures AuthSpec(s, Some("Bearer " + s.sign(claims, SessionTtl, issued)), now) == Ok(claims)
  {
    var token := s.sign(claims, SessionTtl, issued);
    assert ' ' !in "Bearer";
    AnySchemeAccepted("Bearer", token);
    assert "Bearer " + token == "Bearer" + [' '] + token;
  }
}
