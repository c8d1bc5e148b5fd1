/**
  The actor repository (internal/filmoteka/repository/actor.go): creating,
  updating, deleting and listing actors.
 */
module ActorRepository {
  import opened Errors
  import opened Store
  import opened Postgres
  import Pagination

  const CreateContext := "repository.CreateActor()"
  const UpdateContext := "repository.UpdateActor()"
  const DeleteContext := "repository.DeleteActor()"
  const ReadContext := "repository.ReadActors()"

  /** The runtime error a write through a nil pointer raises. */
  const NilDereference := "invalid memory address or nil pointer dereference"

  // ----- CreateActor -----

  function CreateActorBody(db: Db, a: Actor): (out: (Db, Result<Id>))
    ensures out.1.Ok?
    ensures out.0 == db.(actors := db.actors[out.1.value := a], nextActorId := out.1.value + 1)
    ensures Valid(db) ==> out.1.value !in db.actors && Valid(out.0)
  {
    var (db1, id) := InsertActor(db, a);
    (db1, Ok(id))
  }

  /** `CreateActor(ctx, name, gender, birthday)` */
  function CreateActor(db: Db, env: TxEnv, a: Actor): (run: TxRun<Db, Id>)
    ensures run.result.Ok? <==> Healthy(env)
    ensures !run.result.Ok? ==> run.store == db
    ensures run.result.Ok? ==> (run.store.actors == db.actors[run.result.value := a]
      && run.store.films == db.films && run.store.links == db.links && run.store.auth == db.auth)
    ensures run.result.Ok? && Valid(db) ==> run.result.value !in db.actors
    ensures Valid(db) ==> Valid(run.store)
  {
    Finish(CreateContext, WithTransaction(db, env, (s: Db) => CreateActorBody(s, a)))
  }

  // ----- UpdateActor -----

  /**
    The actor an update writes when a gender is given: an empty name and the
    zero date take the stored values.
   */
  function MergeActor(stored: Actor, name: string, gender: bool, birthday: Date): (m: Actor)
    ensures m.gender == gender
    ensures name != "" ==> m.name == name
    ensures name == "" ==> m.name == stored.name
    ensures birthday != ZeroDate ==> m.birthday == birthday
    ensures birthday == ZeroDate ==> m.birthday == stored.birthday
  {
    Actor(if name == "" then stored.name else name, gender, if birthday == ZeroDate then stored.birthday else birthday)
  }

  /**
    The transaction body of `UpdateActor` as written (actor.go:42-77). When
    no gender is given (`gender` is a nil pointer) the code stores the
    stored gender through that pointer, which panics.
   */
  function UpdateActorBody(db: Db, id: Id, name: string, gender: Option<bool>, birthday: Date): (out: (Db, Result<()>))
    ensures id !in db.actors ==> out == (db, Err(Sentinel(NotFoundInDB)))
    ensures id in db.actors && gender.None? ==> out.1.Panicked?
    ensures id in db.actors && gender.Some? ==>
      out == (db.(actors := db.actors[id := MergeActor(db.actors[id], name, gender.value, birthday)]), Ok(()))
  {
    if id !in db.actors then (db, Err(Sentinel(NotFoundInDB)))
    else if gender.None? then (db, Panicked(NilDereference))
    else
      var merged := MergeActor(db.actors[id], name, gender.value, birthday);
      var (db1, _) := UpdateActorRow(db, id, merged);
      (db1, Ok(()))
  }

  /** `UpdateActor(ctx, id, name, gender, birthday)`, as written. */
  function UpdateActor(db: Db, env: TxEnv, id: Id, name: string, gender: Option<bool>, birthday: Date): (run: TxRun<Db, ()>)
    ensures !run.result.Ok? ==> run.store == db
    ensures Valid(db) ==> Valid(run.store)
    ensures id !in db.actors ==> !run.result.Ok?
    ensures id !in db.actors && env.acquire.None? && env.begin.None? ==>
      run.result.Err? && IsKind(run.result.error, NotFoundInDB)
    // leaving the gender out of an update of an existing actor crashes the call
    ensures run.result.Panicked? <==> env.acquire.None? && env.begin.None? && id in db.actors && gender.None?
    ensures run.result.Ok? ==> (id in db.actors && gender.Some?
      && run.store == db.(actors := db.actors[id := MergeActor(db.actors[id], name, gender.value, birthday)]))
  {
    assert Is(Sentinel(NotFoundInDB), Sentinel(NotFoundInDB));
    Finish(UpdateContext, WithTransaction(db, env, (s: Db) => UpdateActorBody(s, id, name, gender, birthday)))
  }

  /** The body as evidently intended: no gender given keeps the stored one. */
  function UpdateActorIntendedBody(db: Db, id: Id, name: string, gender: Option<bool>, birthday: Date): (out: (Db, Result<()>))
    ensures !out.1.Panicked?
    ensures id !in db.actors ==> out == (db, Err(Sentinel(NotFoundInDB)))
    ensures id in db.actors ==> out.1.Ok?
  {
    if id !in db.actors then (db, Err(Sentinel(NotFoundInDB)))
    else
      var g := if gender.Some? then gender.value else db.actors[id].gender;
      var (db1, _) := UpdateActorRow(db, id, MergeActor(db.actors[id], name, g, birthday));
      (db1, Ok(()))
  }

  /** `UpdateActor` as evidently intended: every omitted field, the gender included, keeps its stored value. */
  function UpdateActorIntended(db: Db, env: TxEnv, id: Id, name: string, gender: Option<bool>, birthday: Date): (run: TxRun<Db, ()>)
    ensures !run.result.Panicked?
    ensures !run.result.Ok? ==> run.store == db
    ensures Valid(db) ==> Valid(run.store)
    ensures run.result.Ok? <==> Healthy(env) && id in db.actors
    ensures id !in db.actors && env.acquire.None? && env.begin.None? ==>
      run.result.Err? && IsKind(run.result.error, NotFoundInDB)
    ensures run.result.Ok? ==> (run.store.films == db.films && run.store.links == db.links
      && run.store.auth == db.auth && run.store.actors.Keys == db.actors.Keys
      && (forall other :: other in db.actors && other != id ==> run.store.actors[other] == db.actors[other]))
    ensures run.result.Ok? ==> var a := run.store.actors[id];
      && a.gender == (if gender.Some? then gender.value else db.actors[id].gender)
      && a.name == (if name == "" then db.actors[id].name else name)
      && a.birthday == (if birthday == ZeroDate then db.actors[id].birthday else birthday)
  {
    assert Is(Sentinel(NotFoundInDB), Sentinel(NotFoundInDB));
    Finish(UpdateContext, WithTransaction(db, env, (s: Db) => UpdateActorIntendedBody(s, id, name, gender, birthday)))
  }

  /**
    The two differ only where the source crashes: with a gender given they
    are the same call; without one, on an existing actor, the source panics
    while the intended update succeeds and keeps the stored gender.
   */
  lemma UpdateActorNilGender(db: Db, env: TxEnv, id: Id, name: string, gender: Option<bool>, birthday: Date)
    ensures gender.Some? ==>
      UpdateActor(db, env, id, name, gender, birthday) == UpdateActorIntended(db, env, id, name, gender, birthday)
    ensures gender.None? && Healthy(env) && id in db.actors ==>
      && UpdateActor(db, env, id, name, gender, birthday).result.Panicked?
      && UpdateActorIntended(db, env, id, name, gender, birthday).result.Ok?
      && UpdateActorIntended(db, env, id, name, gender, birthday).store.actors[id].gender == db.actors[id].gender
  {
    if gender.Some? {
      assert UpdateActorBody(db, id, name, gender, birthday) == UpdateActorIntendedBody(db, id, name, gender, birthday);
    }
  }

  /** A concrete instance: actor 1 exists, the request renames it and gives no gender. */
  lemma NilGenderCounterexample()
    ensures var db := Empty.(actors := map[1 := Actor("Vasily", Male, Date(11620))], nextActorId := 2);
      var env := TxEnv(None, None, None, None);
      && UpdateActor(db, env, 1, "Vasily Abcd", None, ZeroDate).result == Panicked(NilDereference)
      && UpdateActorIntended(db, env, 1, "Vasily Abcd", None, ZeroDate).store.actors[1] == Actor("Vasily Abcd", Male, Date(11620))
  {
  }

  // ----- DeleteActor -----

  function DeleteActorBody(db: Db, id: Id): (out: (Db, Result<()>))
    ensures out.1.Ok? <==> id in db.actors
    ensures !out.1.Ok? ==> out.1 == Err(Sentinel(NotFoundInDB))
  {
    var (db1, rows) := DeleteActorRow(db, id);
    if rows == 0 then (db1, Err(Sentinel(NotFoundInDB))) else (db1, Ok(()))
  }

  /** `DeleteActor(ctx, id)`: the actor and every casting of it go; a missing actor is an error. */
  function DeleteActor(db: Db, env: TxEnv, id: Id): (run: TxRun<Db, ()>)
    ensures Valid(db) ==> Valid(run.store)
    ensures !run.result.Ok? ==> run.store == db
    ensures run.result.Ok? <==> Healthy(env) && id in db.actors
    ensures id !in db.actors && env.acquire.None? && env.begin.None? ==>
      run.result.Err? && IsKind(run.result.error, NotFoundInDB)
    ensures run.result.Ok? ==>
      && run.store.actors == db.actors - {id} && run.store.films == db.films && run.store.auth == db.auth
      && forall l :: l in run.store.links <==> l in db.links && l.actorId != id
  {
    assert Is(Sentinel(NotFoundInDB), Sentinel(NotFoundInDB));
    Finish(DeleteContext, WithTransaction(db, env, (s: Db) => DeleteActorBody(s, id)))
  }

  /** After an actor is deleted, no film lists it any more. */
  lemma DeletedActorLeavesCasts(db: Db, env: TxEnv, id: Id, filmId: Id)
    requires DeleteActor(db, env, id).result.Ok?
    ensures id !in CastOf(DeleteActor(db, env, id).store, filmId)
  {
    var s := DeleteActor(db, env, id).store;
    var ids := set l | l in s.links && l.filmId == filmId :: l.actorId;
    assert id !in ids;
  }

  // ----- ReadActors -----

  /** A film as an actor listing shows it. */
  datatype ActorFilm = ActorFilm(id: Id, title: string, description: string, releaseDate: Date, rating: real)

  /** `domain.OutputActor` */
  datatype OutputActor = OutputActor(id: Id, name: string, gender: string, birthday: Date, films: seq<ActorFilm>)

  /** Look up each film id in turn; a missing one ends the listing with `pgx.ErrNoRows`. */
  function ResolveFilms(db: Db, ids: seq<Id>): (r: Result<seq<ActorFilm>>)
    ensures r.Ok? <==> forall i :: 0 <= i < |ids| ==> ids[i] in db.films
    ensures !r.Ok? ==> r == Err(NoRows)
    ensures r.Ok? ==> |r.value| == |ids| && forall i :: 0 <= i < |ids| ==>
      r.value[i] == ActorFilm(ids[i], db.films[ids[i]].title, db.films[ids[i]].description,
        db.films[ids[i]].releaseDate, db.films[ids[i]].rating)
  {
    if |ids| == 0 then Ok([])
    else if ids[0] !in db.films then Err(NoRows)
    else
      var f := db.films[ids[0]];
      var rest := ResolveFilms(db, ids[1..]);
      if rest.Ok? then Ok([ActorFilm(ids[0], f.title, f.description, f.releaseDate, f.rating)] + rest.value)
      else rest
  }

  /** The listing entry for a stored actor, with its films by id ascending. */
  predicate ShowsActor(db: Db, id: Id, out: OutputActor)
    requires id in db.actors
  {
    && out.id == id && out.name == db.actors[id].name
    && out.gender == GenderName(db.actors[id].gender) && out.birthday == db.actors[id].birthday
    && |out.films| == |FilmsOf(db, id)|
    && forall i :: 0 <= i < |out.films| ==> (out.films[i].id == FilmsOf(db, id)[i]
        && out.films[i].id in db.films && out.films[i].title == db.films[out.films[i].id].title
        && out.films[i].description == db.films[out.films[i].id].description
        && out.films[i].releaseDate == db.films[out.films[i].id].releaseDate
        && out.films[i].rating == db.films[out.films[i].id].rating)
  }

  /** One actor with its films looked up. */
  function ShowActor(db: Db, id: Id): (r: Result<OutputActor>)
    requires id in db.actors
    ensures r.Ok? <==> forall f :: f in FilmsOf(db, id) ==> f in db.films
    ensures !r.Ok? ==> r == Err(NoRows)
    ensures r.Ok? ==> ShowsActor(db, id, r.value)
  {
    var a := db.actors[id];
    var films := ResolveFilms(db, FilmsOf(db, id));
    if films.Ok? then Ok(OutputActor(id, a.name, GenderName(a.gender), a.birthday, films.value)) else Err(NoRows)
  }

  function ShowActors(db: Db, ids: seq<Id>): (r: Result<seq<OutputActor>>)
    requires forall i :: 0 <= i < |ids| ==> ids[i] in db.actors
    ensures !r.Panicked?
    ensures (forall i, f :: 0 <= i < |ids| && f in FilmsOf(db, ids[i]) ==> f in db.films) ==> r.Ok?
    ensures r.Ok? ==> |r.value| == |ids| && forall i :: 0 <= i < |ids| ==> ShowActor(db, ids[i]) == Ok(r.value[i])
  {
    Collect(ids, (id: Id) requires id in db.actors => ShowActor(db, id))
  }

  /** Every link points at an existing film, so each actor's films resolve. */
  lemma FilmsResolve(db: Db, ids: seq<Id>)
    requires Valid(db)
    ensures forall i, f :: 0 <= i < |ids| && f in FilmsOf(db, ids[i]) ==> f in db.films
  {
    forall i, f | 0 <= i < |ids| && f in FilmsOf(db, ids[i]) ensures f in db.films {
      var s := set l | l in db.links && l.actorId == ids[i] :: l.filmId;
      assert f in s;
    }
  }

  /** Every actor id, ascending: the order the listing query is taken to return. */
  function AllActorIds(db: Db): (ids: seq<Id>)
    ensures StrictlyIncreasing(ids) && |ids| == |db.actors|
    ensures forall i :: 0 <= i < |ids| ==> ids[i] in db.actors
    ensures forall id :: id in db.actors ==> id in ids
  {
    var ids := SortedIds(db.actors.Keys);
    assert |db.actors.Keys| == |db.actors|;
    assert forall i :: 0 <= i < |ids| ==> ids[i] in db.actors by {
      forall i | 0 <= i < |ids| ensures ids[i] in db.actors {
        assert ids[i] in ids;
      }
    }
    ids
  }

  /** The ids of one page: consecutive, ascending, stored. */
  lemma PageOfIds(db: Db, page: Pagination.Int64, limit: Pagination.Int64, ids: seq<Id>)
    requires Pagination.Page(AllActorIds(db), page, limit) == Ok(ids)
    ensures forall i :: 0 <= i < |ids| ==> ids[i] in db.actors
    ensures StrictlyIncreasing(ids)
    ensures |ids| <= limit
  {
    WindowOfIds(AllActorIds(db), limit, Pagination.Offset(page, limit), ids, db.actors.Keys);
  }

  /** A window of an ascending list of ids from a set is ascending and drawn from the set. */
  lemma WindowOfIds(all: seq<Id>, limit: int, offset: int, ids: seq<Id>, keys: set<Id>)
    requires Pagination.LimitOffset(all, limit, offset) == Ok(ids)
    requires StrictlyIncreasing(all) && forall k :: 0 <= k < |all| ==> all[k] in keys
    ensures forall i :: 0 <= i < |ids| ==> ids[i] in keys
    ensures StrictlyIncreasing(ids)
    ensures |ids| <= limit
  {
    forall i | 0 <= i < |ids| ensures ids[i] in keys {
      assert ids[i] == all[offset + i];
    }
    forall i, j | 0 <= i < j < |ids| ensures ids[i] < ids[j] {
      assert ids[i] == all[offset + i] && ids[j] == all[offset + j];
    }
  }

  /** The actors of one page of ids, each with their films. */
  function ShowIdPage(db: Db, ids: seq<Id>): (r: Result<seq<OutputActor>>)
    requires forall i :: 0 <= i < |ids| ==> ids[i] in db.actors
    requires StrictlyIncreasing(ids)
    ensures !r.Panicked?
    ensures Valid(db) ==> r.Ok?
    ensures r.Ok? ==> |r.value| == |ids| && IdsOfActors(r.value) == ids
    ensures r.Ok? ==> forall i :: 0 <= i < |r.value| ==> r.value[i].id in db.actors && ShowsActor(db, r.value[i].id, r.value[i])
    ensures r.Ok? ==> forall i, j :: 0 <= i < j < |r.value| ==> r.value[i].id < r.value[j].id
  {
    if Valid(db) then FilmsResolve(db, ids); ShowActors(db, ids) else ShowActors(db, ids)
  }

  /** The ids of listed actors, in order. */
  function IdsOfActors(outs: seq<OutputActor>): (ids: seq<Id>)
    ensures |ids| == |outs| && forall i :: 0 <= i < |outs| ==> ids[i] == outs[i].id
  {
    seq(|outs|, i requires 0 <= i < |outs| => outs[i].id)
  }

  /**
    The query `ReadActors` runs on its connection (actor.go:109-167). Its
    loop never reads `rows.Err()`, so a window the server refuses reads as
    a page without actors.
   */
  function ReadActorsBody(db: Db, page: Pagination.Int64, limit: Pagination.Int64): (r: Result<seq<OutputActor>>)
    ensures !r.Panicked?
    ensures Pagination.Offset(page, limit) < 0 || limit < 0 ==> r == Ok([])
    ensures Valid(db) ==> r.Ok?
    ensures r.Ok? ==> IdsOfActors(r.value) == Pagination.ScannedPage(AllActorIds(db), page, limit)
    ensures r.Ok? && limit >= 0 ==> |r.value| <= limit
    ensures r.Ok? ==> forall i :: 0 <= i < |r.value| ==> r.value[i].id in db.actors && ShowsActor(db, r.value[i].id, r.value[i])
    ensures r.Ok? ==> forall i, j :: 0 <= i < j < |r.value| ==> r.value[i].id < r.value[j].id
  {
    var window := Pagination.Page(AllActorIds(db), page, limit);
    if window.Err? then Ok([])
    else
      PageOfIds(db, page, limit, window.value);
      ShowIdPage(db, window.value)
  }

  /** `ReadActors(ctx, page, limit)`: one page of actors by id, each with their films. */
  function ReadActors(db: Db, acquire: Option<Error>, page: Pagination.Int64, limit: Pagination.Int64): (r: Result<seq<OutputActor>>)
    ensures acquire.Some? ==> r.Err? && Is(r.error, acquire.value)
    ensures Valid(db) && acquire.None? ==> r.Ok?
    // page `page` of the actor ids, as the query's window holds it
    ensures r.Ok? ==> IdsOfActors(r.value) == Pagination.ScannedPage(AllActorIds(db), page, limit)
    ensures r.Ok? && Pagination.Offset(page, limit) >= 0 && limit >= 0 ==>
      Pagination.Page(AllActorIds(db), page, limit) == Ok(IdsOfActors(r.value))
    // a window the server refuses comes back as no actors and no error
    ensures acquire.None? && (Pagination.Offset(page, limit) < 0 || limit < 0) ==> r == Ok([])
    ensures r.Ok? && limit >= 0 ==> |r.value| <= limit
    ensures r.Ok? ==> forall i :: 0 <= i < |r.value| ==> r.value[i].id in db.actors && ShowsActor(db, r.value[i].id, r.value[i])
    ensures r.Ok? ==> forall i, j :: 0 <= i < j < |r.value| ==> r.value[i].id < r.value[j].id
  {
    WrapErr(ReadContext, WithConnection(db, acquire, (s: Db) => ReadActorsBody(s, page, limit)).result)
  }

  /** With a limit covering every actor, page 1 lists each stored actor once, by id ascending. */
  lemma ReadActorsFirstPageAll(db: Db, limit: Pagination.Int64)
    requires Valid(db) && limit >= |db.actors|
    ensures var r := ReadActors(db, None, 1, limit);
      && r.Ok? && |r.value| == |db.actors|
      && forall id :: id in db.actors ==> exists i :: 0 <= i < |r.value| && r.value[i].id == id
  {
    var all := AllActorIds(db);
    Pagination.FirstPageIsAll(all, limit);
    var body := ReadActorsBody(db, 1, limit);
    var ids := IdsOfActors(body.value);
    assert ids == all;
    forall id | id in db.actors ensures exists i :: 0 <= i < |body.value| && body.value[i].id == id {
      var i :| 0 <= i < |all| && all[i] == id;
      assert body.value[i].id == ids[i];
    }
  }
}
