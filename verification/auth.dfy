/**
 * Request authentication and the role guard. Decoding and verifying a JWT
 * (signature, algorithm, expiry) is a foreign call and is taken as a
 * parameter: a partial function from token to claims.
 */
module Auth {
  import opened Outcomes
  import opened Models
  import opened Schemas

  /**
   * Resolves the bearer token to a stored user: 401 when the token does not
   * decode, when its payload fails validation, or when its subject is no user.
   * The user query runs outside the handler's error catching, so a subject
   * outside the integer range is a 500.
   */
  function GetCurrentUser(s: Store, token: string, decode: string -> Option<Claims>): (r: Response<User>)
    requires Valid(s)
    ensures r.Failure? ==> r.error in {Unauthorized, InternalError}
    ensures r == Failure(InternalError) <==>
      && decode(token).Some?
      && ValidateTokenPayload(decode(token).value).Some?
      && !Int4(ValidateTokenPayload(decode(token).value).value.sub)
    ensures r.Success? <==>
      && decode(token).Some?
      && ValidateTokenPayload(decode(token).value).Some?
      && Int4(ValidateTokenPayload(decode(token).value).value.sub)
      && ValidateTokenPayload(decode(token).value).value.sub in s.users
    ensures r.Success? ==>
      && Authenticated(s, r.value)
      && r.value.id == ValidateTokenPayload(decode(token).value).value.sub
  {
    match decode(token)
    case None => Failure(Unauthorized)
    case Some(claims) =>
      match ValidateTokenPayload(claims)
      case None => Failure(Unauthorized)
      case Some(payload) =>
        if !Int4(payload.sub) then Failure(InternalError)
        else if payload.sub in s.users then Success(s.users[payload.sub]) else Failure(Unauthorized)
  }

  /**
   * The role guard: the user passes through unchanged when their stored role
   * is one of `roles`, and the request fails with 403 otherwise. The role
   * claim of the token plays no part.
   */
  function RoleRequired(roles: set<Role>, user: User): (r: Response<User>)
    ensures r.Success? <==> user.role in roles
    ensures r.Success? ==> r.value == user
    ensures r.Failure? ==> r.error == Forbidden
  {
    if user.role in roles then Success(user) else Failure(Forbidden)
  }

  /** The token issued at login for a stored user, whose id fits its column, authenticates that user. */
  lemma LoginTokenAuthenticates(s: Store, token: string, decode: string -> Option<Claims>, u: User, exp: int)
    requires Valid(s) && Authenticated(s, u) && Int4(u.id)
    requires decode(token) == Some(LoginClaims(u.id, u.role, exp))
    ensures GetCurrentUser(s, token, decode) == Success(u)
  {
    assert u.id > 0;
    LoginClaimsValidate(u.id, u.role, exp);
  }
}
