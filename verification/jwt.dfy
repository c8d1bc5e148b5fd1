/**
  The token check the middleware relies on (pkg/jwt). Parsing and signature
  checking belong to an outside library (an HS256-signed JSON Web Token,
  RFC 7519 with section 3.2 of RFC 7518), so they are a parameter here:
  `parse(token, key)` is the admin claim of a token that parses and is
  valid under the key, or `None`.
 */
module Jwt {
  import opened Errors

  /** The pair `(bool, error)` the Go function returns. */
  datatype Checked = Checked(isAdmin: bool, err: Option<Error>)

  const CheckContext := "jwt.CheckIsAdminInJWT()"

  /** `CheckIsAdminInJWT(tokenString, signingKey)` */
  function CheckIsAdminInJWT(token: string, key: string, parse: (string, string) -> Option<bool>): (c: Checked)
    // every failure, whatever its cause, is reported as an invalid token
    ensures c.err.Some? <==> parse(token, key).None?
    ensures c.err.Some? ==> IsKind(c.err.value, TokenIsInvalid) && !c.isAdmin
    // a valid token reports its claim
    ensures c.err.None? ==> c.isAdmin == parse(token, key).value
  {
    match parse(token, key)
    case None => Checked(false, Some(Wrapped(CheckContext, Sentinel(TokenIsInvalid))))
    case Some(isAdmin) => Checked(isAdmin, None)
  }
}
