/** The access guard (`middleware/auth.js`): `authenticate` parses the
    `Authorization` header and verifies the bearer token with a foreign
    verification function; `requireRole` admits an identity by role. */
module AccessGuard {
  import opened Json
  import opened Http
  import opened Strings
  import opened Identity

  const MissingHeader := Unauthorized("Missing auth header")
  const InvalidHeader := Unauthorized("Invalid auth header")
  const InvalidToken := Unauthorized("Invalid token")
  const Denied := Forbidden("Forbidden")

  const Bearer: string := "Bearer"

  /** The first two pieces of the header split on single spaces, accepted only
      when the scheme is exactly `Bearer` and the token is present and non-empty. */
  function BearerToken(header: string): (r: Result<string>)
    ensures r.Err? ==> r.failure == InvalidHeader
    ensures r.Ok? ==> r.value != "" && ' ' !in r.value
  {
    var parts := Split(header, ' ');
    if parts[0] != Bearer || |parts| < 2 || parts[1] == "" then Err(InvalidHeader)
    else Ok(parts[1])
  }

  /** An accepted header is `Bearer`, one space, the token, and then nothing
      or a space (after which anything may follow). */
  lemma BearerTokenSound(header: string)
    requires BearerToken(header).Ok?
    ensures var token := BearerToken(header).value;
      && |header| >= |Bearer| + 1 + |token|
      && header[..|Bearer| + 1 + |token|] == Bearer + " " + token
      && (|header| == |Bearer| + 1 + |token| || header[|Bearer| + 1 + |token|] == ' ')
  {
    SplitSecond(header, ' ');
  }

  /** `Bearer <token>` is accepted for any non-empty token without spaces,
      alone or followed by a space and anything else, which is ignored. */
  lemma BearerTokenComplete(token: string, more: string)
    requires token != "" && ' ' !in token
    ensures BearerToken(Bearer + " " + token) == Ok(token)
    ensures BearerToken(Bearer + " " + token + " " + more) == Ok(token)
  {
    assert ' ' !in Bearer by {
      forall i | 0 <= i < |Bearer| ensures Bearer[i] != ' ' {}
    }
    SplitCons(Bearer, ' ', token);
    assert Split(token, ' ') == [token];
    assert Bearer + " " + token + " " + more == Bearer + [' '] + (token + [' '] + more);
    SplitCons(Bearer, ' ', token + [' '] + more);
    SplitCons(token, ' ', more);
  }

  /** `authenticate`: 401 for a missing or empty header, for a malformed one,
      and for a token the verifier rejects; otherwise the decoded identity. */
  function Authenticate(header: Option<string>, verify: string -> Option<Claims>): (r: Result<Claims>)
    ensures header == None || header == Some("") ==> r == Err(MissingHeader)
    ensures header.Some? && header.value != "" && BearerToken(header.value).Err? ==> r == Err(InvalidHeader)
    ensures r.Ok? <==> header.Some? && BearerToken(header.value).Ok? && verify(BearerToken(header.value).value).Some?
    ensures r.Ok? ==> r == Ok(verify(BearerToken(header.value).value).value)
    ensures r.Err? ==> r.failure.Unauthorized? && Status(r.failure) == 401
  {
    if header == None || header == Some("") then Err(MissingHeader)
    else match BearerToken(header.value)
      case Err(f) => Err(f)
      case Ok(token) =>
        match verify(token)
        case None => Err(InvalidToken)
        case Some(claims) => Ok(claims)
  }

  /** A token issued by login authenticates as its claims, whenever the
      verifier accepts what the signer produced. */
  lemma LoginTokenAuthenticates(claims: Claims, sign: (Claims, int) -> string, verify: string -> Option<Claims>)
    requires var token := sign(claims, TokenLifetimeSeconds); token != "" && ' ' !in token
    requires verify(sign(claims, TokenLifetimeSeconds)) == Some(claims)
    ensures Authenticate(Some(Bearer + " " + sign(claims, TokenLifetimeSeconds)), verify) == Ok(claims)
  {
    BearerTokenComplete(sign(claims, TokenLifetimeSeconds), "");
  }

  /** `requireRole(roles)`: 403 without an identity, or when the list is
      non-empty and the identity's role is not in it. */
  function RequireRole(roles: seq<string>, user: Option<Claims>): (r: Result<Claims>)
    ensures r.Ok? ==> user == Some(r.value)
    ensures r.Err? ==> r.failure == Denied && Status(r.failure) == 403
  {
    if user.None? || (|roles| > 0 && user.value.role !in roles) then Err(Denied)
    else Ok(user.value)
  }

  /** Without an identity every role list rejects. */
  lemma RequireRoleNeedsIdentity(roles: seq<string>)
    ensures RequireRole(roles, None) == Err(Denied)
  {
  }

  /** The empty role list admits any identity. */
  lemma RequireRoleEmptyAdmitsAll(claims: Claims)
    ensures RequireRole([], Some(claims)) == Ok(claims)
  {
  }

  /** A non-empty role list admits exactly the identities whose role it holds. */
  lemma RequireRoleMembership(roles: seq<string>, claims: Claims)
    requires |roles| > 0
    ensures RequireRole(roles, Some(claims)).Ok? <==> claims.role in roles
  {
  }
}
