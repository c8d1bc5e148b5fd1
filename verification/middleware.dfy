/**
  The two access-control middlewares (internal/filmoteka/middleware/jwt.go)
  as decision functions: from the `Authorization` header, the `authToken`
  cookie and the token check, either a rejection written to the client or
  a call of the next handler.
 */
module Middleware {
  import opened Errors
  import Jwt

  /** What the middleware reads of a request. */
  datatype Request = Request(
    /** `r.Header.Get("Authorization")`: empty when the header is absent */
    authorization: string,
    /** the `authToken` cookie, if the request carries one */
    cookie: Option<string>
  )

  datatype Decision =
      /** `httperrorwriter.WriteError` with this status and sentinel; `next` is not called */
    | Reject(status: int, kind: Kind)
      /** `next.ServeHTTP(w, r)` */
    | Proceed

  const Unauthorized := 401
  const Forbidden := 403
  const InternalServerError := 500

  /** The header scheme prefix of section 2.1 of RFC 6750, matched case-sensitively. */
  const BearerPrefix := "Bearer "

  predicate HasPrefix(s: string, prefix: string)
  {
    |prefix| <= |s| && s[..|prefix|] == prefix
  }

  /** `strings.TrimPrefix(s, prefix)` */
  function TrimPrefix(s: string, prefix: string): (r: string)
    ensures HasPrefix(s, prefix) ==> prefix + r == s
    ensures !HasPrefix(s, prefix) ==> r == s
  {
    if HasPrefix(s, prefix) then s[|prefix|..] else s
  }

  /**
    The token a middleware checks: the header without its `Bearer ` prefix,
    or, when that leaves nothing, the cookie's value (which may itself be
    empty). `None` when neither gives a token.
   */
  function ExtractToken(r: Request): (t: Option<string>)
    ensures TrimPrefix(r.authorization, BearerPrefix) != "" ==> t == Some(TrimPrefix(r.authorization, BearerPrefix))
    ensures TrimPrefix(r.authorization, BearerPrefix) == "" ==> t == r.cookie
  {
    var fromHeader := TrimPrefix(r.authorization, BearerPrefix);
    if fromHeader != "" then Some(fromHeader) else r.cookie
  }

  /** The answer to a failed token check: 401 for an invalid token, 500 for anything else. */
  function RejectCheckError(e: Error): (d: Decision)
    ensures d.Reject?
    ensures d.status == Unauthorized <==> IsKind(e, TokenIsInvalid)
    ensures d.status == Unauthorized ==> d.kind == TokenIsInvalid
    ensures d.status != Unauthorized ==> d == Reject(InternalServerError, SomethingWentWrong)
  {
    if IsKind(e, TokenIsInvalid) then Reject(Unauthorized, TokenIsInvalid)
    else Reject(InternalServerError, SomethingWentWrong)
  }

  /** `AdminRequired(next, jwtKey)` on one request; `check` is the token check under the key. */
  function AdminRequired(r: Request, check: string -> Jwt.Checked): (d: Decision)
    ensures ExtractToken(r).None? ==> d == Reject(Unauthorized, NoTokenProvided)
    ensures d == Proceed <==>
      ExtractToken(r).Some? && check(ExtractToken(r).value).err.None? && check(ExtractToken(r).value).isAdmin
    ensures d == Reject(Forbidden, Kind.AdminRequired) <==>
      ExtractToken(r).Some? && check(ExtractToken(r).value).err.None? && !check(ExtractToken(r).value).isAdmin
  {
    match ExtractToken(r)
    case None => Reject(Unauthorized, NoTokenProvided)
    case Some(token) =>
      var c := check(token);
      if c.err.Some? then RejectCheckError(c.err.value)
      else if !c.isAdmin then Reject(Forbidden, Kind.AdminRequired)
      else Proceed
  }

  /** `AuthorizationRequired(next, jwtKey)` on one request: any valid token passes. */
  function AuthorizationRequired(r: Request, check: string -> Jwt.Checked): (d: Decision)
    ensures ExtractToken(r).None? ==> d == Reject(Unauthorized, NoTokenProvided)
    ensures d == Proceed <==> ExtractToken(r).Some? && check(ExtractToken(r).value).err.None?
  {
    match ExtractToken(r)
    case None => Reject(Unauthorized, NoTokenProvided)
    case Some(token) =>
      var c := check(token);
      if c.err.Some? then RejectCheckError(c.err.value)
      else Proceed
  }

  /** A bare token, without the scheme prefix, is used as it is. */
  lemma BareTokenUsedAsIs(token: string, cookie: Option<string>)
    requires token != "" && !HasPrefix(token, BearerPrefix)
    ensures ExtractToken(Request(token, cookie)) == Some(token)
  {
  }

  /** `Bearer <token>` yields the token, and the cookie is not looked at. */
  lemma BearerHeaderYieldsToken(token: string, cookie: Option<string>)
    requires token != ""
    ensures ExtractToken(Request(BearerPrefix + token, cookie)) == Some(token)
  {
    assert (BearerPrefix + token)[..|BearerPrefix|] == BearerPrefix;
    assert (BearerPrefix + token)[|BearerPrefix|..] == token;
  }

  /**
    The two middlewares differ in one answer only: where `AdminRequired`
    refuses a valid non-admin token with 403, `AuthorizationRequired` lets
    the request through. So whatever passes the admin gate passes the
    authorization gate.
   */
  lemma GatesDifferOnlyInForbidden(r: Request, check: string -> Jwt.Checked)
    ensures AuthorizationRequired(r, check) ==
      if AdminRequired(r, check) == Reject(Forbidden, Kind.AdminRequired) then Proceed else AdminRequired(r, check)
    ensures AdminRequired(r, check) == Proceed ==> AuthorizationRequired(r, check) == Proceed
  {
  }

  /**
    With the real token check, every failure is an invalid token, so neither
    middleware ever answers 500: every rejection is 401 or 403.
   */
  lemma NoInternalErrorWithTokenCheck(r: Request, key: string, parse: (string, string) -> Option<bool>)
    ensures var check := (t: string) => Jwt.CheckIsAdminInJWT(t, key, parse);
      && AdminRequired(r, check) != Reject(InternalServerError, SomethingWentWrong)
      && AuthorizationRequired(r, check) != Reject(InternalServerError, SomethingWentWrong)
      && (AdminRequired(r, check).Reject? ==> AdminRequired(r, check).status in {Unauthorized, Forbidden})
      && (AuthorizationRequired(r, check).Reject? ==> AuthorizationRequired(r, check).status == Unauthorized)
  {
  }
}
