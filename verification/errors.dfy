/**
  Error values of the filmoteka service.

  Go errors are values that can wrap other values (`fmt.Errorf("...: %w", e)`)
  or join several (`errors.Join`). The model keeps that tree shape so that
  `errors.Is` and `errors.As` can be stated exactly.
 */
module Errors {

  datatype Option<T> = None | Some(value: T)

  /** The sentinel errors the application declares with `errors.New`. */
  datatype Kind =
    // storage-level outcomes (errors/db.go)
    | NotFoundInDB
    | ActorNotBornBeforeFilmRelease
    | ActorDoesNotExist
    | AlreadyRegistered
    | UserNotFound
    // request-body outcomes (errors/json.go)
    | DuplicateInJSON
    | WrongMIME
    | WrongRequestWithJSON
    | NothingProvidedInJSON
    // access-control outcomes, used by the middleware and the token wrapper
    | NoTokenProvided
    | TokenIsInvalid
    | AdminRequired
    | SomethingWentWrong

  /** A PostgreSQL SQLSTATE code, as carried by a server error. */
  type SqlState = string

  /** Raised by a PL/pgSQL `RAISE EXCEPTION` (the birthday trigger). */
  const RaiseException: SqlState := "P0001"
  const ForeignKeyViolation: SqlState := "23503"
  const UniqueViolation: SqlState := "23505"
  /** "LIMIT must not be negative" */
  const InvalidRowCountInLimitClause: SqlState := "2201W"
  /** "OFFSET must not be negative" */
  const InvalidRowCountInResultOffsetClause: SqlState := "2201X"

  datatype Error =
    | Sentinel(kind: Kind)
      /** a server-side error (`*pgconn.PgError`) */
    | PgError(code: SqlState)
      /** `pgx.ErrNoRows`: a single-row query matched nothing */
    | NoRows
      /** `pgx.ErrTxClosed`: the transaction is already finished */
    | TxClosed
      /** any other failure of the pool, the connection or a reader */
    | Io(what: string)
      /** `fmt.Errorf("<context>: %w", inner)` */
    | Wrapped(context: string, inner: Error)
      /** `errors.Join(first, second)` */
    | Joined(first: Error, second: Error)

  /** `errors.Is(e, target)`: target occurs somewhere in the wrap/join tree of e. */
  predicate Is(e: Error, target: Error)
  {
    e == target ||
    match e
    case Wrapped(_, inner) => Is(inner, target)
    case Joined(a, b) => Is(a, target) || Is(b, target)
    case _ => false
  }

  predicate IsKind(e: Error, k: Kind)
  {
    Is(e, Sentinel(k))
  }

  /**
    `errors.As(e, &pgErr)`: the code of the first server error met in a
    depth-first, left-to-right walk of the tree, if there is one.
   */
  function AsPgError(e: Error): (r: Option<SqlState>)
    ensures r.Some? ==> Is(e, PgError(r.value))
    ensures r.None? ==> forall c: SqlState :: !Is(e, PgError(c))
  {
    match e
    case PgError(c) => Some(c)
    case Wrapped(_, inner) => AsPgError(inner)
    case Joined(a, b) => if AsPgError(a).Some? then AsPgError(a) else AsPgError(b)
    case _ => None
  }

  /**
    The outcome of a repository call: a value, a returned error, or a runtime
    panic (which is not an error value in the source: it unwinds through every
    caller, so no wrapper ever sees it).
   */
  datatype Result<T> = Ok(value: T) | Err(error: Error) | Panicked(why: string)

  /**
    A `for rows.Next()` loop that builds one value per row and returns the
    first failure it meets: all values in order, or that failure.
   */
  function Collect<A, B>(xs: seq<A>, f: A --> Result<B>): (r: Result<seq<B>>)
    requires forall i :: 0 <= i < |xs| ==> f.requires(xs[i])
    ensures r.Ok? <==> forall i :: 0 <= i < |xs| ==> f(xs[i]).Ok?
    ensures r.Ok? ==> |r.value| == |xs| && forall i :: 0 <= i < |xs| ==> f(xs[i]) == Ok(r.value[i])
    ensures r.Err? ==> exists i :: 0 <= i < |xs| && f(xs[i]) == Err(r.error)
    ensures r.Panicked? ==> exists i :: 0 <= i < |xs| && f(xs[i]) == Panicked(r.why)
  {
    if |xs| == 0 then Ok([])
    else
      match f(xs[0])
      case Err(e) => Err(e)
      case Panicked(why) => Panicked(why)
      case Ok(head) =>
        var rest := Collect(xs[1..], f);
        match rest
        case Ok(tail) => Ok([head] + tail)
        case Err(e) => Err(e)
        case Panicked(why) => Panicked(why)
  }

  /** The source's `if err != nil { return fmt.Errorf("<context>: %w", err) }`. */
  function WrapErr<T>(context: string, r: Result<T>): (w: Result<T>)
    ensures w.Ok? <==> r.Ok?
    ensures w.Ok? ==> w.value == r.value
    ensures w.Panicked? <==> r.Panicked?
    ensures w.Err? ==> forall target {:trigger Is(r.error, target)} :: Is(r.error, target) ==> Is(w.error, target)
  {
    match r
    case Err(e) => Err(Wrapped(context, e))
    case _ => r
  }
}
