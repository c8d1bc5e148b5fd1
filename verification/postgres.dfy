/**
  The transaction and connection wrappers every repository call runs in
  (internal/filmoteka/repository/postgres.go).

  The database is a value of some type `S`. A transaction works on a
  snapshot: the body returns the store it would leave behind, and the
  wrapper keeps that store only when the commit goes through, otherwise it
  restores the snapshot. What the pool and the server answer to acquire,
  begin, commit and rollback is given as a parameter, and each run records
  the calls it made, in order.
 */
module Postgres {
  import opened Errors

  datatype Event = Acquire | Begin | RunBody | Commit | Rollback | Release

  /** The failure, if any, of each call the wrapper makes outside the body. */
  datatype TxEnv = TxEnv(acquire: Option<Error>, begin: Option<Error>, commit: Option<Error>, rollback: Option<Error>)

  /** The store after a transaction, the outcome returned to the caller, and the calls made. */
  datatype TxRun<S, T> = TxRun(store: S, result: Result<T>, trace: seq<Event>)

  /** The outcome of a call on a pooled connection, and the calls made. */
  datatype ConnRun<T> = ConnRun(result: Result<T>, trace: seq<Event>)

  const TxContext := "repository.WithTransaction()"
  const RollbackContext := "repository.Rollback()"
  const ConnContext := "repository.WithConnection()"

  /** Whatever the pool did, the connection is released exactly when it was acquired, and last. */
  predicate ReleasedIfAcquired(trace: seq<Event>, acquired: bool)
  {
    && |trace| > 0 && trace[0] == Acquire
    && (acquired <==> trace[|trace| - 1] == Release)
    && (forall i :: 0 <= i < |trace| - 1 ==> trace[i] != Release)
  }

  /**
    `Rollback(ctx, tx)`: a transaction that is already closed counts as
    rolled back; any other failure is wrapped.
   */
  function RollbackTx(answer: Option<Error>): (r: Option<Error>)
    ensures r.None? <==> answer.None? || Is(answer.value, TxClosed)
    ensures r.Some? ==> forall target {:trigger Is(answer.value, target)} :: Is(answer.value, target) ==> Is(r.value, target)
  {
    match answer
    case None => None
    case Some(e) => if Is(e, TxClosed) then None else Some(Wrapped(RollbackContext, e))
  }

  /** `WithTransaction(ctx, txFunc)` on the store `s`. */
  function WithTransaction<S, T>(s: S, env: TxEnv, body: S -> (S, Result<T>)): (run: TxRun<S, T>)
    ensures ReleasedIfAcquired(run.trace, env.acquire.None?)
    // the body runs only on an acquired connection with an open transaction
    ensures RunBody in run.trace <==> env.acquire.None? && env.begin.None?
    ensures (env.acquire.Some? || env.begin.Some?) ==> run.store == s && run.result.Err?
    // commit only after a body that succeeded; rollback only after a body that failed
    ensures Commit in run.trace <==> RunBody in run.trace && body(s).1.Ok?
    ensures Rollback in run.trace <==> RunBody in run.trace && body(s).1.Err?
    ensures !(Commit in run.trace && Rollback in run.trace)
    // all or nothing: the body's store survives exactly when the call succeeds
    ensures run.result.Ok? ==> run.store == body(s).0 && run.result == body(s).1
    ensures !run.result.Ok? ==> run.store == s
    ensures run.result.Ok? <==> env.acquire.None? && env.begin.None? && body(s).1.Ok? && env.commit.None?
    // a body failure is returned with everything `errors.Is` could find in it
    ensures RunBody in run.trace && body(s).1.Err? ==>
      run.result.Err? && forall target {:trigger Is(body(s).1.error, target)} ::
        Is(body(s).1.error, target) ==> Is(run.result.error, target)
    // a failed rollback is joined to the body's error
    ensures RunBody in run.trace && body(s).1.Err? && RollbackTx(env.rollback).Some? ==>
      run.result == Err(Wrapped(TxContext, Joined(body(s).1.error, RollbackTx(env.rollback).value)))
    // a panicking body is neither committed nor rolled back, and its panic goes on up
    ensures run.result.Panicked? <==> RunBody in run.trace && body(s).1.Panicked?
  {
    if env.acquire.Some? then
      TxRun(s, Err(Wrapped(TxContext, env.acquire.value)), [Acquire])
    else if env.begin.Some? then
      TxRun(s, Err(Wrapped(TxContext, env.begin.value)), [Acquire, Begin, Release])
    else
      var (after, outcome) := body(s);
      match outcome
      case Panicked(why) =>
        TxRun(s, Panicked(why), [Acquire, Begin, RunBody, Release])
      case Err(e) =>
        var trace := [Acquire, Begin, RunBody, Rollback, Release];
        var rbErr := RollbackTx(env.rollback);
        if rbErr.Some? then TxRun(s, Err(Wrapped(TxContext, Joined(e, rbErr.value))), trace)
        else TxRun(s, Err(Wrapped(TxContext, e)), trace)
      case Ok(v) =>
        var trace := [Acquire, Begin, RunBody, Commit, Release];
        if env.commit.Some? then TxRun(s, Err(Wrapped(TxContext, env.commit.value)), trace)
        else TxRun(after, Ok(v), trace)
  }

  /** The pool and server answer every call of the transaction wrapper without failing. */
  predicate Healthy(env: TxEnv)
  {
    env.acquire.None? && env.begin.None? && env.commit.None?
  }

  /** The caller's outcome: the transaction's, with the repository's context wrapped around an error. */
  function Finish<S, T>(context: string, run: TxRun<S, T>): TxRun<S, T>
  {
    TxRun(run.store, WrapErr(context, run.result), run.trace)
  }

  /** `WithConnection(ctx, connFunc)`: the body reads the store `s` and cannot change it. */
  function WithConnection<S, T>(s: S, acquire: Option<Error>, body: S -> Result<T>): (run: ConnRun<T>)
    ensures ReleasedIfAcquired(run.trace, acquire.None?)
    ensures RunBody in run.trace <==> acquire.None?
    ensures acquire.Some? ==> run.result.Err? && Is(run.result.error, acquire.value)
    // with a connection, the body's outcome is returned with its error kinds intact
    ensures acquire.None? ==> run.result.Ok? == body(s).Ok? && run.result.Panicked? == body(s).Panicked?
    ensures acquire.None? && body(s).Ok? ==> run.result == body(s)
    ensures acquire.None? && body(s).Err? ==>
      run.result.Err? && forall target {:trigger Is(body(s).error, target)} :: Is(body(s).error, target) ==> Is(run.result.error, target)
  {
    if acquire.Some? then
      ConnRun(Err(Wrapped(ConnContext, acquire.value)), [Acquire])
    else
      ConnRun(WrapErr(ConnContext, body(s)), [Acquire, RunBody, Release])
  }
}
