/**
  The film repository (internal/filmoteka/repository/film.go): creating,
  updating, deleting, listing and searching films, over the tables of
  `Store` and inside the wrappers of `Postgres`.
 */
module FilmRepository {
  import opened Errors
  import opened Store
  import opened Postgres
  import opened Ordering
  import Pagination

  const CreateContext := "repository.CreateFilm()"
  const UpdateContext := "repository.UpdateFilm()"
  const DeleteContext := "repository.DeleteFilm()"
  const ReadContext := "repository.ReadFilms()"
  const FindContext := "repository.FindFilms()"

  // ----- the cast of a film -----

  predicate Distinct(xs: seq<Id>)
  {
    forall i, j :: 0 <= i < j < |xs| ==> xs[i] != xs[j]
  }

  function LinksFor(actors: seq<Id>, filmId: Id): set<Link>
  {
    set a | a in actors :: Link(a, filmId)
  }

  /** Every listed actor can be linked to the film, each once. */
  predicate CastInsertable(db: Db, trigger: Trigger, actors: seq<Id>, filmId: Id)
  {
    && (forall a :: a in actors ==> filmId in db.films && a in db.actors && trigger(db.actors[a], db.films[filmId]))
    && (forall a :: a in actors ==> Link(a, filmId) !in db.links)
    && Distinct(actors)
  }

  /**
    The loop over `actors` that inserts one `film_actor` row each and stops
    at the first failing insert (film.go:38-43 and 139-155), with the store
    it leaves and the error that stopped it.
   */
  function InsertLinks(db: Db, trigger: Trigger, actors: seq<Id>, filmId: Id): (out: (Db, Option<Error>))
    ensures out.0.films == db.films && out.0.actors == db.actors && out.0.auth == db.auth
    ensures out.0.nextFilmId == db.nextFilmId && out.0.nextActorId == db.nextActorId
    ensures out.1.None? <==> CastInsertable(db, trigger, actors, filmId)
    ensures out.1.None? ==> out.0.links == db.links + LinksFor(actors, filmId)
    ensures out.1.Some? ==> out.1.value in {PgError(ForeignKeyViolation), PgError(RaiseException), PgError(UniqueViolation)}
    // which problem the reported SQLSTATE points to
    ensures out.1 == Some(PgError(ForeignKeyViolation)) ==>
      filmId !in db.films || exists a :: a in actors && a !in db.actors
    ensures out.1 == Some(PgError(RaiseException)) ==>
      filmId in db.films && exists a :: a in actors && a in db.actors && !trigger(db.actors[a], db.films[filmId])
    ensures out.1 == Some(PgError(UniqueViolation)) ==>
      !Distinct(actors) || exists a :: a in actors && Link(a, filmId) in db.links
    ensures Valid(db) ==> Valid(out.0)
    decreases |actors|
  {
    if |actors| == 0 then (db, None)
    else
      var a := actors[0];
      var rest := actors[1..];
      assert actors == [a] + rest;
      match InsertLink(db, trigger, a, filmId)
      case Err(e) =>
        assert a in actors;
        (db, Some(e))
      case Ok(db1) =>
        var out := InsertLinks(db1, trigger, rest, filmId);
        assert Distinct(actors) <==> a !in rest && Distinct(rest) by {
          if a !in rest && Distinct(rest) {
            forall i, j | 0 <= i < j < |actors| ensures actors[i] != actors[j] {
              if i > 0 { assert actors[i] == rest[i - 1]; }
              assert actors[j] == rest[j - 1];
            }
          }
          if Distinct(actors) {
            forall i, j | 0 <= i < j < |rest| ensures rest[i] != rest[j] {
              assert rest[i] == actors[i + 1] && rest[j] == actors[j + 1];
            }
          }
        }
        assert LinksFor(actors, filmId) == {Link(a, filmId)} + LinksFor(rest, filmId);
        out
  }

  /**
    The error a failed `film_actor` insert is returned as (film.go:45-57 and
    141-153): the trigger's exception and a foreign-key violation become the
    repository's own errors; anything else passes through.
   */
  function TranslateLinkError(e: Error): (t: Error)
    ensures AsPgError(e) == Some(RaiseException) ==> t == Sentinel(ActorNotBornBeforeFilmRelease)
    ensures AsPgError(e) == Some(ForeignKeyViolation) ==> t == Sentinel(ActorDoesNotExist)
    ensures AsPgError(e) != Some(RaiseException) && AsPgError(e) != Some(ForeignKeyViolation) ==> t == e
  {
    match AsPgError(e)
    case Some(code) =>
      if code == RaiseException then Sentinel(ActorNotBornBeforeFilmRelease)
      else if code == ForeignKeyViolation then Sentinel(ActorDoesNotExist)
      else e
    case None => e
  }

  // ----- CreateFilm -----

  /** Every listed actor exists, is listed once and may play in `f`. */
  predicate CastAdmitted(db: Db, trigger: Trigger, f: Film, actors: seq<Id>)
  {
    Distinct(actors) && forall a :: a in actors ==> a in db.actors && trigger(db.actors[a], f)
  }

  /** A cast whose only fault is a missing actor: no repeats, and every actor that exists may play in `f`. */
  predicate OnlyMissingActors(db: Db, trigger: Trigger, f: Film, actors: seq<Id>)
  {
    && Distinct(actors) && (forall a :: a in actors && a in db.actors ==> trigger(db.actors[a], f))
    && exists a :: a in actors && a !in db.actors
  }

  /** A cast whose only fault is an actor born too late: no repeats, and every actor exists. */
  predicate OnlyUnbornActors(db: Db, trigger: Trigger, f: Film, actors: seq<Id>)
  {
    && Distinct(actors) && (forall a :: a in actors ==> a in db.actors)
    && exists a :: a in actors && !trigger(db.actors[a], f)
  }

  /** The transaction body of `CreateFilm` (film.go:31-61). */
  function CreateFilmBody(db: Db, trigger: Trigger, f: Film, actors: seq<Id>): (out: (Db, Result<Id>))
    ensures !out.1.Panicked?
    ensures Valid(db) ==> Valid(out.0)
    ensures out.1.Ok? ==> (out.0.films == db.films[out.1.value := f] && out.0.actors == db.actors
      && out.0.links == db.links + LinksFor(actors, out.1.value) && out.0.auth == db.auth)
    ensures Valid(db) && out.1.Ok? ==> out.1.value !in db.films
    ensures Valid(db) ==> (out.1.Ok? <==> CastAdmitted(db, trigger, f, actors))
    // a cast whose only fault is a missing actor, or only an actor born too late
    ensures Valid(db) && OnlyMissingActors(db, trigger, f, actors) ==> out.1 == Err(Sentinel(ActorDoesNotExist))
    ensures Valid(db) && OnlyUnbornActors(db, trigger, f, actors) ==> out.1 == Err(Sentinel(ActorNotBornBeforeFilmRelease))
  {
    var (db1, id) := InsertFilm(db, f);
    assert Valid(db) ==> forall a :: Link(a, id) !in db1.links;
    var (db2, err) := InsertLinks(db1, trigger, actors, id);
    if err.Some? then (db2, Err(TranslateLinkError(err.value))) else (db2, Ok(id))
  }

  /** `CreateFilm(ctx, title, description, releaseDate, rating, actors)` */
  function CreateFilm(db: Db, env: TxEnv, trigger: Trigger, f: Film, actors: seq<Id>): (run: TxRun<Db, Id>)
    ensures Valid(db) ==> Valid(run.store)
    // the film and its whole cast, or nothing
    ensures !run.result.Ok? ==> run.store == db
    ensures run.result.Ok? ==> Valid(db) ==> run.result.value !in db.films
    ensures run.result.Ok? ==>
      && run.store.films == db.films[run.result.value := f]
      && run.store.actors == db.actors
      && run.store.links == db.links + LinksFor(actors, run.result.value)
      && run.store.auth == db.auth
    // with a healthy pool, it succeeds exactly when the cast is admitted
    ensures Valid(db) && Healthy(env) ==> (run.result.Ok? <==> CastAdmitted(db, trigger, f, actors))
    // the repository's own errors reach the caller, whatever the rollback answers
    ensures Valid(db) && env.acquire.None? && env.begin.None? && OnlyMissingActors(db, trigger, f, actors) ==>
      run.result.Err? && IsKind(run.result.error, ActorDoesNotExist)
    ensures Valid(db) && env.acquire.None? && env.begin.None? && OnlyUnbornActors(db, trigger, f, actors) ==>
      run.result.Err? && IsKind(run.result.error, ActorNotBornBeforeFilmRelease)
  {
    var body := (s: Db) => CreateFilmBody(s, trigger, f, actors);
    assert Is(Sentinel(ActorDoesNotExist), Sentinel(ActorDoesNotExist));
    assert Is(Sentinel(ActorNotBornBeforeFilmRelease), Sentinel(ActorNotBornBeforeFilmRelease));
    Finish(CreateContext, WithTransaction(db, env, body))
  }

  // ----- UpdateFilm -----

  /**
    The film an update writes: each omitted field (an empty string, the
    zero date, no rating) takes the stored value, each given one replaces it.
   */
  function MergeFilm(stored: Film, title: string, description: string, releaseDate: Date, rating: Option<real>): (m: Film)
    ensures title != "" ==> m.title == title
    ensures title == "" ==> m.title == stored.title
    ensures description != "" ==> m.description == description
    ensures description == "" ==> m.description == stored.description
    ensures releaseDate != ZeroDate ==> m.releaseDate == releaseDate
    ensures releaseDate == ZeroDate ==> m.releaseDate == stored.releaseDate
    ensures rating.Some? ==> m.rating == rating.value
    ensures rating.None? ==> m.rating == stored.rating
  {
    Film(
      if title == "" then stored.title else title,
      if description == "" then stored.description else description,
      if releaseDate == ZeroDate then stored.releaseDate else releaseDate,
      if rating.None? then stored.rating else rating.value)
  }

  /** Applying the same partial update twice is the same as applying it once. */
  lemma MergeIdempotent(stored: Film, title: string, description: string, releaseDate: Date, rating: Option<real>)
    ensures var once := MergeFilm(stored, title, description, releaseDate, rating);
      MergeFilm(once, title, description, releaseDate, rating) == once
  {
  }

  /** The cast an update installs: the stored one when no list is given, the given list otherwise. */
  function ChosenCast(db: Db, id: Id, actors: Option<seq<Id>>): seq<Id>
  {
    if actors.None? then CastOf(db, id) else actors.value
  }

  /** The links of one film. */
  function LinksOf(db: Db, filmId: Id): set<Link>
  {
    set l | l in db.links && l.filmId == filmId
  }

  /** The transaction body of `UpdateFilm` (film.go:79-158). */
  function UpdateFilmBody(
    db: Db, trigger: Trigger, id: Id,
    title: string, description: string, releaseDate: Date, rating: Option<real>, actors: Option<seq<Id>>
  ): (out: (Db, Result<()>))
    ensures !out.1.Panicked?
    ensures Valid(db) ==> Valid(out.0)
    ensures id !in db.films ==> out == (db, Err(Sentinel(NotFoundInDB)))
    ensures out.0.nextFilmId == db.nextFilmId && out.0.nextActorId == db.nextActorId
    ensures out.1.Ok? ==> (id in db.films
      && out.0.films == db.films[id := MergeFilm(db.films[id], title, description, releaseDate, rating)]
      && out.0.actors == db.actors && out.0.auth == db.auth)
    ensures out.1.Ok? ==> forall l: Link :: l.filmId != id ==> (l in out.0.links <==> l in db.links)
    ensures out.1.Ok? ==> LinksOf(out.0, id) == LinksFor(ChosenCast(db, id, actors), id)
    ensures out.1.Ok? ==> forall a :: a in ChosenCast(db, id, actors) ==>
      a in out.0.actors && trigger(out.0.actors[a], out.0.films[id])
    // an existing film is updated exactly when its chosen cast may play in the merged film
    ensures id in db.films ==> (out.1.Ok? <==>
      CastAdmitted(db, trigger, MergeFilm(db.films[id], title, description, releaseDate, rating), ChosenCast(db, id, actors)))
    // the re-inserted cast's failures, translated as in CreateFilm
    ensures id in db.films && OnlyMissingActors(db, trigger,
        MergeFilm(db.films[id], title, description, releaseDate, rating), ChosenCast(db, id, actors)) ==>
      out.1 == Err(Sentinel(ActorDoesNotExist))
    ensures id in db.films && OnlyUnbornActors(db, trigger,
        MergeFilm(db.films[id], title, description, releaseDate, rating), ChosenCast(db, id, actors)) ==>
      out.1 == Err(Sentinel(ActorNotBornBeforeFilmRelease))
  {
    if id !in db.films then (db, Err(Sentinel(NotFoundInDB)))
    else
      var cast := ChosenCast(db, id, actors);
      var merged := MergeFilm(db.films[id], title, description, releaseDate, rating);
      var (db1, rows) := UpdateFilmRow(db, id, merged);
      // the source's check of the affected row count; the film was just found, so it is 1
      if rows == 0 then (db1, Err(Sentinel(NotFoundInDB)))
      else
        var db2 := DeleteLinksOfFilm(db1, id);
        assert LinksOf(db2, id) == {};
        var (db3, err) := InsertLinks(db2, trigger, cast, id);
        assert err.None? ==> LinksOf(db3, id) == LinksFor(cast, id);
        if err.Some? then (db3, Err(TranslateLinkError(err.value))) else (db3, Ok(()))
  }

  /**
    `UpdateFilm(ctx, id, title, description, releaseDate, rating, actors)`;
    `actors` is `None` for a nil slice and `Some(xs)` for any other, empty
    or not.
   */
  function UpdateFilm(
    db: Db, env: TxEnv, trigger: Trigger, id: Id,
    title: string, description: string, releaseDate: Date, rating: Option<real>, actors: Option<seq<Id>>
  ): (run: TxRun<Db, ()>)
    ensures Valid(db) ==> Valid(run.store)
    ensures !run.result.Ok? ==> run.store == db
    // a missing film is reported as not found, and nothing is written
    ensures id !in db.films ==> !run.result.Ok?
    ensures id !in db.films && env.acquire.None? && env.begin.None? ==>
      run.result.Err? && IsKind(run.result.error, NotFoundInDB)
    // on success: the merged film, the chosen cast and nothing else changed
    ensures run.result.Ok? ==> (id in db.films
      && run.store.films == db.films[id := MergeFilm(db.films[id], title, description, releaseDate, rating)]
      && run.store.actors == db.actors && run.store.auth == db.auth)
    ensures run.result.Ok? ==> forall l: Link :: l.filmId != id ==> (l in run.store.links <==> l in db.links)
    ensures run.result.Ok? ==> LinksOf(run.store, id) == LinksFor(ChosenCast(db, id, actors), id)
    // the whole cast, old or new, was checked against the film as it now stands
    ensures run.result.Ok? ==> forall a :: a in ChosenCast(db, id, actors) ==>
      a in run.store.actors && trigger(run.store.actors[a], run.store.films[id])
    // with a healthy pool, it succeeds exactly when the film exists and its chosen cast is admitted
    ensures Healthy(env) ==> (run.result.Ok? <==> (id in db.films
      && CastAdmitted(db, trigger, MergeFilm(db.films[id], title, description, releaseDate, rating), ChosenCast(db, id, actors))))
    // the repository's own errors reach the caller, whatever the rollback answers
    ensures (env.acquire.None? && env.begin.None? && id in db.films && OnlyMissingActors(db, trigger,
        MergeFilm(db.films[id], title, description, releaseDate, rating), ChosenCast(db, id, actors))) ==>
      run.result.Err? && IsKind(run.result.error, ActorDoesNotExist)
    ensures (env.acquire.None? && env.begin.None? && id in db.films && OnlyUnbornActors(db, trigger,
        MergeFilm(db.films[id], title, description, releaseDate, rating), ChosenCast(db, id, actors))) ==>
      run.result.Err? && IsKind(run.result.error, ActorNotBornBeforeFilmRelease)
  {
    var body := (s: Db) => UpdateFilmBody(s, trigger, id, title, description, releaseDate, rating, actors);
    assert Is(Sentinel(NotFoundInDB), Sentinel(NotFoundInDB));
    assert Is(Sentinel(ActorDoesNotExist), Sentinel(ActorDoesNotExist));
    assert Is(Sentinel(ActorNotBornBeforeFilmRelease), Sentinel(ActorNotBornBeforeFilmRelease));
    Finish(UpdateContext, WithTransaction(db, env, body))
  }

  /**
    Leaving the cast out keeps it: after a successful update with a nil
    actor list the film has exactly the actors it had. An empty list, by
    contrast, leaves it with none.
   */
  lemma UpdateCastChoice(
    db: Db, env: TxEnv, trigger: Trigger, id: Id,
    title: string, description: string, releaseDate: Date, rating: Option<real>
  )
    ensures var run := UpdateFilm(db, env, trigger, id, title, description, releaseDate, rating, None);
      run.result.Ok? ==> LinksOf(run.store, id) == LinksOf(db, id)
    ensures var run := UpdateFilm(db, env, trigger, id, title, description, releaseDate, rating, Some([]));
      run.result.Ok? ==> LinksOf(run.store, id) == {}
  {
    CastLinks(db, id);
  }

  /** A film's links are exactly the links from its cast list. */
  lemma CastLinks(db: Db, id: Id)
    ensures LinksFor(CastOf(db, id), id) == LinksOf(db, id)
  {
    var s := set l | l in db.links && l.filmId == id :: l.actorId;
    forall l | l in LinksOf(db, id) ensures l in LinksFor(CastOf(db, id), id) {
      assert l.actorId in s;
    }
  }

  /** Once a film's links are deleted, its old cast can be inserted again if the trigger still admits it. */
  lemma CastReinsertable(db: Db, trigger: Trigger, id: Id)
    requires Valid(db) && id in db.films
    requires forall l :: l in db.links && l.filmId == id ==> trigger(db.actors[l.actorId], db.films[id])
    ensures CastInsertable(DeleteLinksOfFilm(db, id), trigger, CastOf(db, id), id)
  {
    var db2 := DeleteLinksOfFilm(db, id);
    var cast := CastOf(db, id);
    var s := set l | l in db.links && l.filmId == id :: l.actorId;
    forall a | a in cast ensures id in db2.films && a in db2.actors && trigger(db2.actors[a], db2.films[id]) {
      assert a in s;
      var l :| l in db.links && l.filmId == id && l.actorId == a;
    }
  }

  /**
    An update that gives nothing (no field, no cast) to an existing film
    whose cast still passes the trigger changes nothing, and succeeds on a
    healthy pool.
   */
  lemma EmptyUpdateIsNoOp(db: Db, env: TxEnv, trigger: Trigger, id: Id)
    requires Valid(db) && Healthy(env) && id in db.films
    requires forall l :: l in db.links && l.filmId == id ==> trigger(db.actors[l.actorId], db.films[id])
    ensures var run := UpdateFilm(db, env, trigger, id, "", "", ZeroDate, None, None);
      run.result.Ok? && run.store == db
  {
    EmptyUpdateBody(db, trigger, id);
  }

  lemma EmptyUpdateBody(db: Db, trigger: Trigger, id: Id)
    requires Valid(db) && id in db.films
    requires forall l :: l in db.links && l.filmId == id ==> trigger(db.actors[l.actorId], db.films[id])
    ensures UpdateFilmBody(db, trigger, id, "", "", ZeroDate, None, None) == (db, Ok(()))
  {
    CastReinsertable(db, trigger, id);
    CastLinks(db, id);
    var out := UpdateFilmBody(db, trigger, id, "", "", ZeroDate, None, None);
    assert out.1.Ok?;
    assert MergeFilm(db.films[id], "", "", ZeroDate, None) == db.films[id];
    assert out.0.films == db.films;
    SameLinks(db, out.0, id);
  }

  /** Two link sets that agree on one film and off it are equal. */
  lemma SameLinks(db: Db, db': Db, id: Id)
    requires LinksOf(db', id) == LinksOf(db, id)
    requires forall l: Link :: l.filmId != id ==> (l in db'.links <==> l in db.links)
    ensures db'.links == db.links
  {
    forall l | l in db.links ensures l in db'.links {
      if l.filmId == id { assert l in LinksOf(db, id); }
    }
    forall l | l in db'.links ensures l in db.links {
      if l.filmId == id { assert l in LinksOf(db', id); }
    }
  }

  // ----- DeleteFilm -----

  function DeleteFilmBody(db: Db, id: Id): (Db, Result<()>)
  {
    var (db1, rows) := DeleteFilmRow(db, id);
    if rows == 0 then (db1, Err(Sentinel(NotFoundInDB))) else (db1, Ok(()))
  }

  /** `DeleteFilm(ctx, id)`: zero rows deleted is an error, not a quiet success. */
  function DeleteFilm(db: Db, env: TxEnv, id: Id): (run: TxRun<Db, ()>)
    ensures Valid(db) ==> Valid(run.store)
    ensures !run.result.Ok? ==> run.store == db
    ensures run.result.Ok? <==> Healthy(env) && id in db.films
    ensures id !in db.films && env.acquire.None? && env.begin.None? ==>
      run.result.Err? && IsKind(run.result.error, NotFoundInDB)
    ensures run.result.Ok? ==>
      && run.store.films == db.films - {id} && run.store.actors == db.actors && run.store.auth == db.auth
      && forall l :: l in run.store.links <==> l in db.links && l.filmId != id
  {
    assert Is(Sentinel(NotFoundInDB), Sentinel(NotFoundInDB));
    Finish(DeleteContext, WithTransaction(db, env, (s: Db) => DeleteFilmBody(s, id)))
  }

  /** A film just created can be deleted once; deleting it again finds nothing. */
  lemma CreateDeleteDelete(db: Db, env: TxEnv, trigger: Trigger, f: Film, actors: seq<Id>)
    requires Valid(db) && Healthy(env)
    requires CreateFilm(db, env, trigger, f, actors).result.Ok?
    ensures var created := CreateFilm(db, env, trigger, f, actors);
      var deleted := DeleteFilm(created.store, env, created.result.value);
      && deleted.result.Ok?
      && deleted.store.films == db.films
      && DeleteFilm(deleted.store, env, created.result.value).result.Err?
      && IsKind(DeleteFilm(deleted.store, env, created.result.value).result.error, NotFoundInDB)
  {
  }

  // ----- listing -----

  /** An actor as a film listing shows it. */
  datatype CastMember = CastMember(id: Id, name: string, gender: string, birthday: Date)

  /** `domain.OutputFilm` */
  datatype OutputFilm = OutputFilm(id: Id, title: string, description: string, releaseDate: Date, rating: real, actors: seq<CastMember>)

  /** Look up each actor id in turn; a missing one ends the listing with `pgx.ErrNoRows`. */
  function ResolveCast(db: Db, ids: seq<Id>): (r: Result<seq<CastMember>>)
    ensures r.Ok? <==> forall i :: 0 <= i < |ids| ==> ids[i] in db.actors
    ensures !r.Ok? ==> r == Err(NoRows)
    ensures r.Ok? ==> |r.value| == |ids| && forall i :: 0 <= i < |ids| ==>
      r.value[i] == CastMember(ids[i], db.actors[ids[i]].name, GenderName(db.actors[ids[i]].gender), db.actors[ids[i]].birthday)
  {
    if |ids| == 0 then Ok([])
    else if ids[0] !in db.actors then Err(NoRows)
    else
      var a := db.actors[ids[0]];
      var rest := ResolveCast(db, ids[1..]);
      if rest.Ok? then Ok([CastMember(ids[0], a.name, GenderName(a.gender), a.birthday)] + rest.value)
      else rest
  }

  /** The listing entry for one film row, with its cast by id ascending. */
  predicate ShowsFilm(db: Db, row: FilmRow, out: OutputFilm)
  {
    && out.id == row.id && out.title == row.film.title && out.description == row.film.description
    && out.releaseDate == row.film.releaseDate && out.rating == row.film.rating
    && |out.actors| == |CastOf(db, row.id)|
    && forall i :: 0 <= i < |out.actors| ==> (out.actors[i].id == CastOf(db, row.id)[i]
        && out.actors[i].id in db.actors
        && out.actors[i].name == db.actors[out.actors[i].id].name
        && out.actors[i].gender == GenderName(db.actors[out.actors[i].id].gender)
        && out.actors[i].birthday == db.actors[out.actors[i].id].birthday)
  }

  /** Every actor linked to the film is still there to be looked up. */
  predicate Resolves(db: Db, filmId: Id)
  {
    forall a :: a in CastOf(db, filmId) ==> a in db.actors
  }

  /** One film row with its cast looked up. */
  function ShowFilm(db: Db, row: FilmRow): (r: Result<OutputFilm>)
    ensures r.Ok? <==> Resolves(db, row.id)
    ensures !r.Ok? ==> r == Err(NoRows)
    ensures r.Ok? ==> ShowsFilm(db, row, r.value)
  {
    var cast := ResolveCast(db, CastOf(db, row.id));
    if cast.Ok? then
      Ok(OutputFilm(row.id, row.film.title, row.film.description, row.film.releaseDate, row.film.rating, cast.value))
    else Err(NoRows)
  }

  /** The rows of one page turned into listing entries, in order; the first unresolved cast ends it. */
  function ShowFilms(db: Db, rows: seq<FilmRow>): (r: Result<seq<OutputFilm>>)
    ensures r.Ok? <==> forall i :: 0 <= i < |rows| ==> Resolves(db, rows[i].id)
    ensures !r.Ok? ==> r == Err(NoRows)
    ensures r.Ok? ==> |r.value| == |rows| && forall i :: 0 <= i < |rows| ==> ShowFilm(db, rows[i]) == Ok(r.value[i])
  {
    Collect(rows, (row: FilmRow) => ShowFilm(db, row))
  }

  /** The film rows for a list of stored ids, in the same order. */
  function RowsFor(films: map<Id, Film>, ids: seq<Id>): (rows: seq<FilmRow>)
    requires forall i :: 0 <= i < |ids| ==> ids[i] in films
    ensures |rows| == |ids|
    ensures forall i :: 0 <= i < |ids| ==> rows[i] == FilmRow(ids[i], films[ids[i]])
  {
    if |ids| == 0 then [] else [FilmRow(ids[0], films[ids[0]])] + RowsFor(films, ids[1..])
  }

  /** The stored films with the given ids, by id ascending. */
  function ListingOf(films: map<Id, Film>, keys: set<Id>): (rows: seq<FilmRow>)
    requires keys <= films.Keys
    ensures |rows| == |keys|
    ensures forall i :: 0 <= i < |rows| ==> rows[i].id in keys && rows[i].id in films && rows[i].film == films[rows[i].id]
    ensures forall id :: id in keys ==> exists i :: 0 <= i < |rows| && rows[i].id == id
    ensures forall i, j :: 0 <= i < j < |rows| ==> rows[i].id < rows[j].id
  {
    var ids := SortedIds(keys);
    IdsOf(films, keys, ids);
    var rows := RowsFor(films, ids);
    ListedRows(films, ids, rows);
    rows
  }

  lemma IdsOf(films: map<Id, Film>, keys: set<Id>, ids: seq<Id>)
    requires keys <= films.Keys && ids == SortedIds(keys)
    ensures forall i :: 0 <= i < |ids| ==> ids[i] in keys && ids[i] in films
    ensures forall id :: id in keys ==> id in ids
  {
    forall i | 0 <= i < |ids| ensures ids[i] in keys && ids[i] in films {
      assert ids[i] in ids;
    }
  }

  /** Every film, by id ascending: the rows `ORDER BY` then arranges. */
  function AllFilms(db: Db): (rows: seq<FilmRow>)
    ensures |rows| == |db.films|
    ensures forall i :: 0 <= i < |rows| ==> rows[i].id in db.films && rows[i].film == db.films[rows[i].id]
    ensures forall id :: id in db.films ==> exists i :: 0 <= i < |rows| && rows[i].id == id
    ensures forall i, j :: 0 <= i < j < |rows| ==> rows[i].id < rows[j].id
  {
    assert |db.films.Keys| == |db.films|;
    ListingOf(db.films, db.films.Keys)
  }

  /** Every link points at an existing actor, so each cast resolves. */
  lemma CastsResolve(db: Db, rows: seq<FilmRow>)
    requires Valid(db)
    ensures forall i :: 0 <= i < |rows| ==> Resolves(db, rows[i].id)
  {
    forall i, a | 0 <= i < |rows| && a in CastOf(db, rows[i].id) ensures a in db.actors {
      var s := set l | l in db.links && l.filmId == rows[i].id :: l.actorId;
      assert a in s;
    }
  }

  /** The identity and columns of a listing entry, as a row. */
  function RowOf(out: OutputFilm): FilmRow
  {
    FilmRow(out.id, Film(out.title, out.description, out.releaseDate, out.rating))
  }

  function RowsOf(outs: seq<OutputFilm>): (rows: seq<FilmRow>)
    ensures |rows| == |outs| && forall i :: 0 <= i < |outs| ==> rows[i] == RowOf(outs[i])
  {
    seq(|outs|, i requires 0 <= i < |outs| => RowOf(outs[i]))
  }

  /** Every row is a stored film with its stored columns. */
  predicate AllStored(db: Db, rows: seq<FilmRow>)
  {
    forall i :: 0 <= i < |rows| ==> rows[i].id in db.films && rows[i].film == db.films[rows[i].id]
  }

  /** A window of a list of stored rows holds stored rows. */
  lemma WindowStored(db: Db, listing: seq<FilmRow>, window: seq<FilmRow>, offset: nat)
    requires AllStored(db, listing)
    requires forall i :: 0 <= i < |window| ==> offset + i < |listing| && window[i] == listing[offset + i]
    ensures AllStored(db, window)
  {
    forall i | 0 <= i < |window| ensures window[i].id in db.films && window[i].film == db.films[window[i].id] {
      var x := window[i];
      assert x == listing[offset + i];
    }
  }

  /** A window of a sorted list is sorted. */
  lemma WindowSorted(sorted: seq<FilmRow>, window: seq<FilmRow>, offset: nat, field: Field, dir: Direction)
    requires Sorted(sorted, field, dir)
    requires forall i :: 0 <= i < |window| ==> offset + i < |sorted| && window[i] == sorted[offset + i]
    ensures Sorted(window, field, dir)
  {
    forall i, j | 0 <= i < j < |window| ensures Precedes(window[i], window[j], field, dir) {
      var x, y := window[i], window[j];
      assert x == sorted[offset + i];
      assert y == sorted[offset + j];
    }
  }

  /** Any arrangement of the stored films holds stored rows only. */
  lemma PermutedStored(db: Db, xs: seq<FilmRow>)
    requires multiset(xs) == multiset(AllFilms(db))
    ensures AllStored(db, xs) && |xs| == |db.films|
  {
    var all := AllFilms(db);
    assert |multiset(xs)| == |multiset(all)|;
    forall k | 0 <= k < |xs| ensures xs[k].id in db.films && xs[k].film == db.films[xs[k].id] {
      assert xs[k] in multiset(xs);
      assert xs[k] in multiset(all);
      var j :| 0 <= j < |all| && all[j] == xs[k];
    }
  }

  /** The entries shown for stored rows are those rows, each showing its stored film. */
  lemma ShownRows(db: Db, rows: seq<FilmRow>, outs: seq<OutputFilm>)
    requires AllStored(db, rows)
    requires |outs| == |rows| && forall i :: 0 <= i < |rows| ==> ShowFilm(db, rows[i]) == Ok(outs[i])
    ensures RowsOf(outs) == rows
    ensures forall i :: 0 <= i < |outs| ==>
      outs[i].id in db.films && ShowsFilm(db, FilmRow(outs[i].id, db.films[outs[i].id]), outs[i])
  {
    forall i | 0 <= i < |outs| ensures RowOf(outs[i]) == rows[i] && FilmRow(outs[i].id, db.films[outs[i].id]) == rows[i] {
      assert ShowsFilm(db, rows[i], outs[i]);
    }
  }

  /**
    One page of a listing of stored films, shown with casts: the rows the
    `LIMIT`/`OFFSET` query hands to the `for rows.Next()` loop, then one
    cast lookup per film. The loop never reads `rows.Err()`, so a window
    the server refuses reads as an empty page and not as an error.
   */
  function ShowPage(db: Db, listing: seq<FilmRow>, page: Pagination.Int64, limit: Pagination.Int64): (r: Result<seq<OutputFilm>>)
    requires AllStored(db, listing)
    ensures !r.Panicked?
    ensures Pagination.Offset(page, limit) < 0 || limit < 0 ==> r == Ok([])
    ensures Valid(db) ==> r.Ok?
    ensures !r.Ok? ==> r == Err(NoRows)
    // the entries are the rows the loop reads, in order
    ensures r.Ok? ==> RowsOf(r.value) == Pagination.ScannedPage(listing, page, limit)
    ensures r.Ok? ==> forall i :: 0 <= i < |r.value| ==>
      r.value[i].id in db.films && ShowsFilm(db, FilmRow(r.value[i].id, db.films[r.value[i].id]), r.value[i])
  {
    var window := Pagination.Page(listing, page, limit);
    if window.Err? then Ok([])
    else
      var rows := window.value;
      WindowStored(db, listing, rows, Pagination.Offset(page, limit));
      var shown := ShowFilms(db, rows);
      if shown.Ok? then
        ShownRows(db, rows, shown.value);
        shown
      else
        assert Valid(db) ==> !shown.Ok? by {
          if Valid(db) { CastsResolve(db, rows); }
        }
        shown
  }

  /**
    The listing loop as it is evidently meant to end, with `rows.Err()`
    read after it: a window the server refuses is returned as the refusal.
   */
  function ShowPageChecked(db: Db, listing: seq<FilmRow>, page: Pagination.Int64, limit: Pagination.Int64): (r: Result<seq<OutputFilm>>)
    requires AllStored(db, listing)
    ensures !r.Panicked?
    ensures Pagination.Offset(page, limit) < 0 ==> r == Err(PgError(InvalidRowCountInResultOffsetClause))
    ensures Pagination.Offset(page, limit) >= 0 && limit < 0 ==> r == Err(PgError(InvalidRowCountInLimitClause))
    ensures Valid(db) && Pagination.Offset(page, limit) >= 0 && limit >= 0 ==> r.Ok?
    ensures r.Ok? ==> Pagination.Page(listing, page, limit) == Ok(RowsOf(r.value))
  {
    var window := Pagination.Page(listing, page, limit);
    if window.Err? then Err(window.error) else ShowPage(db, listing, page, limit)
  }

  /** The query `ReadFilms` runs on its connection (film.go:190-245). */
  function ReadFilmsBody(db: Db, field: Field, dir: Direction, page: Pagination.Int64, limit: Pagination.Int64): (r: Result<seq<OutputFilm>>)
    ensures !r.Panicked?
    ensures Pagination.Offset(page, limit) < 0 || limit < 0 ==> r == Ok([])
    ensures Valid(db) ==> r.Ok?
    ensures r.Ok? ==> RowsOf(r.value) == Pagination.ScannedPage(SortRows(AllFilms(db), field, dir), page, limit)
    ensures r.Ok? ==> Sorted(RowsOf(r.value), field, dir)
    ensures r.Ok? ==> forall i :: 0 <= i < |r.value| ==>
      r.value[i].id in db.films && ShowsFilm(db, FilmRow(r.value[i].id, db.films[r.value[i].id]), r.value[i])
  {
    var sorted := SortRows(AllFilms(db), field, dir);
    PermutedStored(db, sorted);
    var r := ShowPage(db, sorted, page, limit);
    if r.Ok? && Pagination.Offset(page, limit) >= 0 && limit >= 0 then
      PageSorted(sorted, page, limit, RowsOf(r.value), field, dir);
      r
    else r
  }

  /** The connection wrapper and the repository's context around a listing query. */
  function RunListing(db: Db, acquire: Option<Error>, context: string, body: Db -> Result<seq<OutputFilm>>): (r: Result<seq<OutputFilm>>)
    ensures acquire.Some? ==> r.Err? && Is(r.error, acquire.value)
    ensures acquire.None? ==> (r.Ok? <==> body(db).Ok?)
    ensures r.Ok? ==> r == body(db)
    ensures acquire.None? && body(db).Err? ==>
      r.Err? && forall target {:trigger Is(body(db).error, target)} :: Is(body(db).error, target) ==> Is(r.error, target)
  {
    WrapErr(context, WithConnection(db, acquire, body).result)
  }

  /**
    `ReadFilms(ctx, field, order, page, limit)`. `field` and `order` come
    from an allow-list and so are one of the three columns and one of the
    two directions.
   */
  function ReadFilms(
    db: Db, acquire: Option<Error>, field: Field, dir: Direction, page: Pagination.Int64, limit: Pagination.Int64
  ): (r: Result<seq<OutputFilm>>)
    ensures acquire.Some? ==> r.Err? && Is(r.error, acquire.value)
    ensures Valid(db) && acquire.None? ==> r.Ok?
    // page `page` of the sorted listing, as the query's window holds it
    ensures r.Ok? ==> RowsOf(r.value) == Pagination.ScannedPage(SortRows(AllFilms(db), field, dir), page, limit)
    ensures r.Ok? && Pagination.Offset(page, limit) >= 0 && limit >= 0 ==>
      Pagination.Page(SortRows(AllFilms(db), field, dir), page, limit) == Ok(RowsOf(r.value))
    // a window the server refuses comes back as no films and no error
    ensures acquire.None? && (Pagination.Offset(page, limit) < 0 || limit < 0) ==> r == Ok([])
    // the page is in the requested order, holds no more than `limit` films, and shows stored films
    ensures r.Ok? && limit >= 0 ==> |r.value| <= limit
    ensures r.Ok? ==> Sorted(RowsOf(r.value), field, dir)
    ensures r.Ok? ==> forall i :: 0 <= i < |r.value| ==>
      r.value[i].id in db.films && ShowsFilm(db, FilmRow(r.value[i].id, db.films[r.value[i].id]), r.value[i])
  {
    RunListing(db, acquire, ReadContext, (s: Db) => ReadFilmsBody(s, field, dir, page, limit))
  }

  /** The query of `ReadFilmsChecked`: `ReadFilmsBody` with `rows.Err()` read. */
  function ReadFilmsCheckedBody(db: Db, field: Field, dir: Direction, page: Pagination.Int64, limit: Pagination.Int64): (r: Result<seq<OutputFilm>>)
    ensures Pagination.Offset(page, limit) < 0 ==> r == Err(PgError(InvalidRowCountInResultOffsetClause))
    ensures Pagination.Offset(page, limit) >= 0 && limit < 0 ==> r == Err(PgError(InvalidRowCountInLimitClause))
    ensures Valid(db) && Pagination.Offset(page, limit) >= 0 && limit >= 0 ==> r.Ok?
    ensures r.Ok? ==> Pagination.Page(SortRows(AllFilms(db), field, dir), page, limit) == Ok(RowsOf(r.value))
  {
    var sorted := SortRows(AllFilms(db), field, dir);
    PermutedStored(db, sorted);
    ShowPageChecked(db, sorted, page, limit)
  }

  /** `ReadFilms` as it is evidently meant to behave: a refused window is reported, not read as empty. */
  function ReadFilmsChecked(
    db: Db, acquire: Option<Error>, field: Field, dir: Direction, page: Pagination.Int64, limit: Pagination.Int64
  ): (r: Result<seq<OutputFilm>>)
    ensures acquire.None? && Pagination.Offset(page, limit) < 0 ==>
      r.Err? && Is(r.error, PgError(InvalidRowCountInResultOffsetClause))
    ensures acquire.None? && Pagination.Offset(page, limit) >= 0 && limit < 0 ==>
      r.Err? && Is(r.error, PgError(InvalidRowCountInLimitClause))
    ensures Valid(db) && acquire.None? && Pagination.Offset(page, limit) >= 0 && limit >= 0 ==> r.Ok?
    ensures r.Ok? ==> Pagination.Page(SortRows(AllFilms(db), field, dir), page, limit) == Ok(RowsOf(r.value))
  {
    assert Is(PgError(InvalidRowCountInResultOffsetClause), PgError(InvalidRowCountInResultOffsetClause));
    assert Is(PgError(InvalidRowCountInLimitClause), PgError(InvalidRowCountInLimitClause));
    RunListing(db, acquire, ReadContext, (s: Db) => ReadFilmsCheckedBody(s, field, dir, page, limit))
  }

  /** Wherever the server accepts the window, the listing as written is the checked one. */
  lemma CheckedAgreesOnAcceptedPages(
    db: Db, acquire: Option<Error>, field: Field, dir: Direction, page: Pagination.Int64, limit: Pagination.Int64
  )
    requires Pagination.Offset(page, limit) >= 0 && limit >= 0
    ensures ReadFilmsChecked(db, acquire, field, dir, page, limit) == ReadFilms(db, acquire, field, dir, page, limit)
  {
    var sorted := SortRows(AllFilms(db), field, dir);
    PermutedStored(db, sorted);
    assert ReadFilmsCheckedBody(db, field, dir, page, limit) == ReadFilmsBody(db, field, dir, page, limit);
  }

  /**
    Page 0 with four films a page asks for offset -4; page 2^61 + 1 asks for
    offset 2^63, which Go wraps to -2^63. The server refuses both; `ReadFilms`
    answers with no films and no error, where the checked listing returns
    the refusal.
   */
  lemma RefusedPageReadsEmpty(db: Db, field: Field, dir: Direction)
    ensures Pagination.Offset(0x2000_0000_0000_0001, 4) < 0
    ensures ReadFilms(db, None, field, dir, 0x2000_0000_0000_0001, 4) == Ok([])
    ensures var c := ReadFilmsChecked(db, None, field, dir, 0x2000_0000_0000_0001, 4);
      c.Err? && Is(c.error, PgError(InvalidRowCountInResultOffsetClause))
    // page 0 needs no overflow: its offset is -limit
    ensures Pagination.Offset(0, 4) == -4
    ensures ReadFilms(db, None, field, dir, 0, 4) == Ok([])
    ensures var c := ReadFilmsChecked(db, None, field, dir, 0, 4);
      c.Err? && Is(c.error, PgError(InvalidRowCountInResultOffsetClause))
  {
    assert Pagination.Wrap64(0x2000_0000_0000_0000 * 4) == -0x8000_0000_0000_0000;
  }

  /**
    On a consistent store, while `page * limit` fits in 64 bits, page
    `page` holds the films from position `(page-1)*limit` on, at most
    `limit` of them.
   */
  lemma ReadFilmsPageSize(db: Db, acquire: Option<Error>, field: Field, dir: Direction, page: Pagination.Int64, limit: Pagination.Int64)
    requires Valid(db) && acquire.None? && 1 <= page && limit >= 0 && page * limit <= Pagination.MaxInt64
    ensures var r := ReadFilms(db, acquire, field, dir, page, limit);
      r.Ok? && |r.value| == Pagination.Min(limit, if (page - 1) * limit <= |db.films| then |db.films| - (page - 1) * limit else 0)
  {
    Pagination.OffsetExact(page, limit);
    var sorted := SortRows(AllFilms(db), field, dir);
    PermutedStored(db, sorted);
    var body := ReadFilmsBody(db, field, dir, page, limit);
    WindowLength(sorted, limit, (page - 1) * limit, RowsOf(body.value));
  }

  /** The length of a `LIMIT`/`OFFSET` window, with the offset given. */
  lemma WindowLength(listing: seq<FilmRow>, limit: int, offset: int, rows: seq<FilmRow>)
    requires Pagination.LimitOffset(listing, limit, offset) == Ok(rows)
    ensures |rows| == Pagination.Min(limit, if offset <= |listing| then |listing| - offset else 0)
  {
  }

  // ----- FindFilms -----

  /**
    `value ILIKE '%' || fragment || '%'`: whether the text contains the
    fragment under PostgreSQL's case-insensitive pattern match. It is a
    parameter of the model.
   */
  type Contains = (string, string) -> bool

  /** The three queries `FindFilms` chooses between. */
  datatype Search = TitleAndName | NameOnly | TitleOnly

  /** Which query runs: both fragments, the actor-name one alone, or the title one (possibly empty). */
  function SearchOf(titleFragment: string, nameFragment: string): (s: Search)
    ensures s == TitleAndName <==> titleFragment != "" && nameFragment != ""
    ensures s == NameOnly <==> titleFragment == "" && nameFragment != ""
    ensures s == TitleOnly <==> nameFragment == ""
  {
    if titleFragment != "" && nameFragment != "" then TitleAndName
    else if nameFragment != "" then NameOnly
    else TitleOnly
  }

  /** Some actor linked to the film has a name the fragment matches. */
  predicate CastNameMatches(db: Db, ilike: Contains, filmId: Id, nameFragment: string)
  {
    exists l :: l in db.links && l.filmId == filmId && l.actorId in db.actors && ilike(db.actors[l.actorId].name, nameFragment)
  }

  /** The `WHERE` clause of the chosen query, for one film. */
  predicate Matches(db: Db, ilike: Contains, titleFragment: string, nameFragment: string, id: Id)
    requires id in db.films
  {
    match SearchOf(titleFragment, nameFragment)
    case TitleAndName => ilike(db.films[id].title, titleFragment) && CastNameMatches(db, ilike, id, nameFragment)
    case NameOnly => CastNameMatches(db, ilike, id, nameFragment)
    case TitleOnly => ilike(db.films[id].title, titleFragment)
  }

  /** `SELECT DISTINCT films.id ...`: each matching film once. */
  function MatchingIds(db: Db, ilike: Contains, titleFragment: string, nameFragment: string): set<Id>
  {
    set id | id in db.films && Matches(db, ilike, titleFragment, nameFragment, id)
  }

  /** The matching films, by id ascending. */
  function MatchingFilms(db: Db, ilike: Contains, titleFragment: string, nameFragment: string): (rows: seq<FilmRow>)
    ensures AllStored(db, rows)
    ensures |rows| == |MatchingIds(db, ilike, titleFragment, nameFragment)|
    ensures forall i :: 0 <= i < |rows| ==> rows[i].id in MatchingIds(db, ilike, titleFragment, nameFragment)
    ensures forall id :: id in MatchingIds(db, ilike, titleFragment, nameFragment) ==>
      exists i :: 0 <= i < |rows| && rows[i].id == id
    ensures forall i, j :: 0 <= i < j < |rows| ==> rows[i].id < rows[j].id
  {
    ListingOf(db.films, MatchingIds(db, ilike, titleFragment, nameFragment))
  }

  /** The rows for a strictly increasing id list are increasing by id and cover the list. */
  lemma ListedRows(films: map<Id, Film>, ids: seq<Id>, rows: seq<FilmRow>)
    requires forall i :: 0 <= i < |ids| ==> ids[i] in films
    requires StrictlyIncreasing(ids) && rows == RowsFor(films, ids)
    ensures forall id :: id in ids ==> exists i :: 0 <= i < |rows| && rows[i].id == id
    ensures forall i :: 0 <= i < |rows| ==> rows[i].id == ids[i] && rows[i].film == films[ids[i]]
    ensures forall i, j :: 0 <= i < j < |rows| ==> rows[i].id < rows[j].id
  {
    forall id | id in ids ensures exists i :: 0 <= i < |rows| && rows[i].id == id {
      var i :| 0 <= i < |ids| && ids[i] == id;
      assert rows[i].id == id;
    }
  }

  /** The query `FindFilms` runs on its connection (film.go:256-328). */
  function FindFilmsBody(
    db: Db, ilike: Contains, titleFragment: string, nameFragment: string, page: Pagination.Int64, limit: Pagination.Int64
  ): (r: Result<seq<OutputFilm>>)
    ensures !r.Panicked?
    ensures Pagination.Offset(page, limit) < 0 || limit < 0 ==> r == Ok([])
    ensures Valid(db) ==> r.Ok?
    ensures r.Ok? ==> RowsOf(r.value) == Pagination.ScannedPage(MatchingFilms(db, ilike, titleFragment, nameFragment), page, limit)
    ensures r.Ok? && limit >= 0 ==> |r.value| <= limit
    ensures r.Ok? ==> forall i :: 0 <= i < |r.value| ==>
      r.value[i].id in db.films && Matches(db, ilike, titleFragment, nameFragment, r.value[i].id)
      && ShowsFilm(db, FilmRow(r.value[i].id, db.films[r.value[i].id]), r.value[i])
    ensures r.Ok? ==> forall i, j :: 0 <= i < j < |r.value| ==> r.value[i].id < r.value[j].id
  {
    var r := ShowPage(db, MatchingFilms(db, ilike, titleFragment, nameFragment), page, limit);
    if r.Ok? && Pagination.Offset(page, limit) >= 0 && limit >= 0 then
      FoundFilms(db, ilike, titleFragment, nameFragment, page, limit, r.value);
      r
    else r
  }

  /**
    `FindFilms(ctx, titleFragment, actorNameFragment, page, limit)`: the
    films that match the chosen query, each once, by id ascending.
   */
  function FindFilms(
    db: Db, acquire: Option<Error>, ilike: Contains, titleFragment: string, nameFragment: string,
    page: Pagination.Int64, limit: Pagination.Int64
  ): (r: Result<seq<OutputFilm>>)
    ensures acquire.Some? ==> r.Err? && Is(r.error, acquire.value)
    ensures Valid(db) && acquire.None? ==> r.Ok?
    // page `page` of the matching films, as the query's window holds it
    ensures r.Ok? ==> RowsOf(r.value) == Pagination.ScannedPage(MatchingFilms(db, ilike, titleFragment, nameFragment), page, limit)
    ensures r.Ok? && Pagination.Offset(page, limit) >= 0 && limit >= 0 ==>
      Pagination.Page(MatchingFilms(db, ilike, titleFragment, nameFragment), page, limit) == Ok(RowsOf(r.value))
    // a window the server refuses comes back as no films and no error
    ensures acquire.None? && (Pagination.Offset(page, limit) < 0 || limit < 0) ==> r == Ok([])
    ensures r.Ok? && limit >= 0 ==> |r.value| <= limit
    // each film found matches, is shown as stored, and appears once
    ensures r.Ok? ==> forall i :: 0 <= i < |r.value| ==>
      r.value[i].id in db.films && Matches(db, ilike, titleFragment, nameFragment, r.value[i].id)
      && ShowsFilm(db, FilmRow(r.value[i].id, db.films[r.value[i].id]), r.value[i])
    ensures r.Ok? ==> forall i, j :: 0 <= i < j < |r.value| ==> r.value[i].id < r.value[j].id
  {
    RunListing(db, acquire, FindContext, (s: Db) => FindFilmsBody(s, ilike, titleFragment, nameFragment, page, limit))
  }

  /** On a consistent store, a first page at least as long as the result holds every matching film. */
  lemma FirstPageFindsAll(db: Db, acquire: Option<Error>, ilike: Contains, titleFragment: string, nameFragment: string, limit: Pagination.Int64)
    requires Valid(db) && acquire.None? && limit >= |MatchingIds(db, ilike, titleFragment, nameFragment)|
    ensures var r := FindFilms(db, acquire, ilike, titleFragment, nameFragment, 1, limit);
      r.Ok? && forall id :: id in MatchingIds(db, ilike, titleFragment, nameFragment) ==>
        exists i :: 0 <= i < |r.value| && r.value[i].id == id
  {
    assert Pagination.Offset(1, limit) == 0;
    var body := FindFilmsBody(db, ilike, titleFragment, nameFragment, 1, limit);
    FoundFilms(db, ilike, titleFragment, nameFragment, 1, limit, body.value);
  }

  /** What a page of the matching films holds. */
  lemma FoundFilms(
    db: Db, ilike: Contains, titleFragment: string, nameFragment: string,
    page: Pagination.Int64, limit: Pagination.Int64, outs: seq<OutputFilm>
  )
    requires Pagination.Page(MatchingFilms(db, ilike, titleFragment, nameFragment), page, limit) == Ok(RowsOf(outs))
    ensures |outs| <= limit
    ensures forall i :: 0 <= i < |outs| ==> outs[i].id in db.films && Matches(db, ilike, titleFragment, nameFragment, outs[i].id)
    ensures forall i, j :: 0 <= i < j < |outs| ==> outs[i].id < outs[j].id
    ensures page == 1 && limit >= |MatchingIds(db, ilike, titleFragment, nameFragment)| ==>
      forall id :: id in MatchingIds(db, ilike, titleFragment, nameFragment) ==>
        exists i :: 0 <= i < |outs| && outs[i].id == id
  {
    var listing := MatchingFilms(db, ilike, titleFragment, nameFragment);
    var rows := RowsOf(outs);
    PageSize(listing, page, limit, rows);
    PageIncreasing(listing, page, limit, rows);
    forall i | 0 <= i < |outs| ensures outs[i].id in db.films && Matches(db, ilike, titleFragment, nameFragment, outs[i].id) {
      assert outs[i].id == rows[i].id;
      var k :| 0 <= k < |listing| && listing[k] == rows[i];
      assert listing[k].id in MatchingIds(db, ilike, titleFragment, nameFragment);
    }
    forall i, j | 0 <= i < j < |outs| ensures outs[i].id < outs[j].id {
      assert outs[i].id == rows[i].id && outs[j].id == rows[j].id;
    }
    if page == 1 && limit >= |MatchingIds(db, ilike, titleFragment, nameFragment)| {
      FirstPageWhole(listing, limit, rows);
      forall id | id in MatchingIds(db, ilike, titleFragment, nameFragment)
        ensures exists i :: 0 <= i < |outs| && outs[i].id == id
      {
        var i :| 0 <= i < |listing| && listing[i].id == id;
        assert outs[i].id == rows[i].id;
      }
    }
  }

  /** A page is at most `limit` rows long, and shorter only at the end of the listing. */
  lemma PageSize(listing: seq<FilmRow>, page: Pagination.Int64, limit: Pagination.Int64, rows: seq<FilmRow>)
    requires Pagination.Page(listing, page, limit) == Ok(rows)
    ensures |rows| <= limit
    ensures |rows| == Pagination.Min(limit,
      if Pagination.Offset(page, limit) <= |listing| then |listing| - Pagination.Offset(page, limit) else 0)
  {
  }

  /** A page of a sorted listing is sorted. */
  lemma PageSorted(listing: seq<FilmRow>, page: Pagination.Int64, limit: Pagination.Int64, rows: seq<FilmRow>, field: Field, dir: Direction)
    requires Pagination.Page(listing, page, limit) == Ok(rows)
    requires Sorted(listing, field, dir)
    ensures Sorted(rows, field, dir)
  {
    WindowSorted(listing, rows, Pagination.Offset(page, limit), field, dir);
  }

  /** A page of a listing by id ascending is by id ascending, and holds rows of the listing. */
  lemma PageIncreasing(listing: seq<FilmRow>, page: Pagination.Int64, limit: Pagination.Int64, rows: seq<FilmRow>)
    requires Pagination.Page(listing, page, limit) == Ok(rows)
    requires forall i, j :: 0 <= i < j < |listing| ==> listing[i].id < listing[j].id
    ensures forall i, j :: 0 <= i < j < |rows| ==> rows[i].id < rows[j].id
    ensures forall i :: 0 <= i < |rows| ==> rows[i] in listing
  {
    var offset := Pagination.Offset(page, limit);
    forall i, j | 0 <= i < j < |rows| ensures rows[i].id < rows[j].id {
      var x, y := rows[i], rows[j];
      assert x == listing[offset + i];
      assert y == listing[offset + j];
    }
  }

  /** A first page at least as long as the listing is the whole listing. */
  lemma FirstPageWhole(listing: seq<FilmRow>, limit: Pagination.Int64, rows: seq<FilmRow>)
    requires Pagination.Page(listing, 1, limit) == Ok(rows) && limit >= |listing|
    ensures rows == listing
  {
    assert Pagination.Offset(1, limit) == 0;
  }

}
