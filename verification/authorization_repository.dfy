/**
  The authorization repository (internal/filmoteka/repository/authorization.go):
  registering a login and reading back its password hash and admin flag.
 */
module AuthorizationRepository {
  import opened Errors
  import opened Store
  import opened Postgres

  const RegisterContext := "repository.Register()"
  const HashContext := "repository.GetPasswordHash()"
  const AdminContext := "repository.IsAdmin()"

  /** A failed insert into `auth`: a unique violation means the login is taken; anything else passes through. */
  function TranslateRegisterError(e: Error): (t: Error)
    ensures AsPgError(e) == Some(UniqueViolation) ==> t == Sentinel(AlreadyRegistered)
    ensures AsPgError(e) != Some(UniqueViolation) ==> t == e
  {
    if AsPgError(e) == Some(UniqueViolation) then Sentinel(AlreadyRegistered) else e
  }

  /** The transaction body of `Register`: a new login is never an admin. */
  function RegisterBody(db: Db, login: string, hash: string): (out: (Db, Result<()>))
    ensures !out.1.Panicked?
    ensures out.1.Ok? <==> login !in db.auth
    ensures out.1.Ok? ==> out.0 == db.(auth := db.auth[login := Credential(hash, false)])
    ensures !out.1.Ok? ==> out == (db, Err(Sentinel(AlreadyRegistered)))
  {
    match InsertCredential(db, login, hash, false)
    case Ok(db1) => (db1, Ok(()))
    case Err(e) => (db, Err(TranslateRegisterError(e)))
    case Panicked(why) => (db, Panicked(why))
  }

  /** `Register(ctx, login, passwordHash)` */
  function Register(db: Db, env: TxEnv, login: string, hash: string): (run: TxRun<Db, ()>)
    ensures run.result.Ok? <==> Healthy(env) && login !in db.auth
    ensures run.result.Ok? ==> run.store == db.(auth := db.auth[login := Credential(hash, false)])
    ensures !run.result.Ok? ==> run.store == db
    ensures !run.result.Panicked?
    ensures login in db.auth && env.acquire.None? && env.begin.None? ==>
      run.result.Err? && IsKind(run.result.error, AlreadyRegistered)
    ensures Valid(db) ==> Valid(run.store)
  {
    assert Is(Sentinel(AlreadyRegistered), Sentinel(AlreadyRegistered));
    Finish(RegisterContext, WithTransaction(db, env, (s: Db) => RegisterBody(s, login, hash)))
  }

  /** `SELECT ... FROM auth WHERE login = $1` followed by the `ErrNoRows` translation. */
  function Lookup(db: Db, login: string): (r: Result<Credential>)
    ensures r.Ok? <==> login in db.auth
    ensures r.Ok? ==> r.value == db.auth[login]
    ensures !r.Ok? ==> r == Err(Sentinel(UserNotFound))
  {
    if login in db.auth then Ok(db.auth[login]) else Err(Sentinel(UserNotFound))
  }

  /** `GetPasswordHash(ctx, login)` */
  function GetPasswordHash(db: Db, acquire: Option<Error>, login: string): (r: Result<string>)
    ensures r.Ok? <==> acquire.None? && login in db.auth
    ensures r.Ok? ==> r.value == db.auth[login].hash
    ensures acquire.None? && login !in db.auth ==> r.Err? && IsKind(r.error, UserNotFound)
    ensures acquire.Some? ==> r.Err? && Is(r.error, acquire.value)
  {
    assert Is(Sentinel(UserNotFound), Sentinel(UserNotFound));
    var run := WithConnection(db, acquire, (s: Db) => match Lookup(s, login)
      case Ok(c) => Ok(c.hash)
      case Err(e) => Err(e)
      case Panicked(why) => Panicked(why));
    WrapErr(HashContext, run.result)
  }

  /** `IsAdmin(ctx, login)` */
  function IsAdmin(db: Db, acquire: Option<Error>, login: string): (r: Result<bool>)
    ensures r.Ok? <==> acquire.None? && login in db.auth
    ensures r.Ok? ==> r.value == db.auth[login].isAdmin
    ensures acquire.None? && login !in db.auth ==> r.Err? && IsKind(r.error, UserNotFound)
    ensures acquire.Some? ==> r.Err? && Is(r.error, acquire.value)
  {
    assert Is(Sentinel(UserNotFound), Sentinel(UserNotFound));
    var run := WithConnection(db, acquire, (s: Db) => match Lookup(s, login)
      case Ok(c) => Ok(c.isAdmin)
      case Err(e) => Err(e)
      case Panicked(why) => Panicked(why));
    WrapErr(AdminContext, run.result)
  }

  /** After a successful registration the login reads back its hash and is not an admin. */
  lemma RegisterThenLookup(db: Db, env: TxEnv, login: string, hash: string)
    requires Register(db, env, login, hash).result.Ok?
    ensures GetPasswordHash(Register(db, env, login, hash).store, None, login) == Ok(hash)
    ensures IsAdmin(Register(db, env, login, hash).store, None, login) == Ok(false)
  {
  }

  /** Registering a taken login fails and changes nothing, so the first registration's hash stays. */
  lemma RegisterTwice(db: Db, env: TxEnv, env2: TxEnv, login: string, hash: string, hash2: string)
    requires Register(db, env, login, hash).result.Ok?
    ensures var db1 := Register(db, env, login, hash).store;
      var second := Register(db1, env2, login, hash2);
      && !second.result.Ok? && second.store == db1
      && GetPasswordHash(second.store, None, login) == Ok(hash)
  {
  }

  /** Registration touches only the new login: every other login reads as before. */
  lemma RegisterKeepsOthers(db: Db, env: TxEnv, login: string, hash: string, other: string)
    requires other != login
    ensures GetPasswordHash(Register(db, env, login, hash).store, None, other) == GetPasswordHash(db, None, other)
    ensures IsAdmin(Register(db, env, login, hash).store, None, other) == IsAdmin(db, None, other)
  {
  }
}
