/**
  The database the repositories work on: the `films`, `actors`,
  `film_actor` and `auth` tables, and each SQL statement the repositories
  issue, as a function from the tables before the statement to the tables
  after it (or to the SQLSTATE the server answers with).

  The schema's migrations are not part of this model. What the statements
  rely on is stated here: ids come from a per-table sequence starting at 1;
  `film_actor` references both tables with `ON DELETE CASCADE` and has a
  unique key on the pair; `auth.login` is unique; a trigger on `film_actor`
  inserts may refuse a pairing (it is a parameter, `Trigger`).
 */
module Store {
  import opened Errors

  type Id = int

  /** A calendar date, as a day number. */
  datatype Date = Date(day: int)

  /** Go's zero `time.Time`, which the update operations read as "not given". */
  const ZeroDate := Date(0)

  datatype Film = Film(title: string, description: string, releaseDate: Date, rating: real)

  datatype Actor = Actor(name: string, gender: bool, birthday: Date)

  /** A row of `film_actor`. */
  datatype Link = Link(actorId: Id, filmId: Id)

  /** A row of `auth`, keyed by login. */
  datatype Credential = Credential(hash: string, isAdmin: bool)

  datatype Db = Db(
    films: map<Id, Film>,
    actors: map<Id, Actor>,
    links: set<Link>,
    auth: map<string, Credential>,
    /** the next value of the `films` id sequence */
    nextFilmId: Id,
    /** the next value of the `actors` id sequence */
    nextActorId: Id
  )

  /** The gender flag as stored (domain/actor.go). */
  const Male := false
  const Female := true

  /** The gender text the listing operations return. */
  function GenderName(gender: bool): (name: string)
    ensures gender == Female <==> name == "female"
    ensures gender == Male <==> name == "male"
  {
    if gender then "female" else "male"
  }

  /**
    The trigger on `film_actor` inserts: whether the actor may be linked to
    the film (the schema's rule is that the actor was born before the
    film's release).
   */
  type Trigger = (Actor, Film) -> bool

  /** The empty database, sequences at 1. */
  const Empty := Db(map[], map[], {}, map[], 1, 1)

  /** Ids were handed out by the sequences, and every link joins two existing rows. */
  predicate Valid(db: Db)
  {
    && db.nextFilmId >= 1 && db.nextActorId >= 1
    && (forall id :: id in db.films ==> 1 <= id < db.nextFilmId)
    && (forall id :: id in db.actors ==> 1 <= id < db.nextActorId)
    && (forall l :: l in db.links ==> l.actorId in db.actors && l.filmId in db.films)
  }

  lemma EmptyIsValid()
    ensures Valid(Empty)
  {
  }

  // ----- sorted id lists -----

  predicate StrictlyIncreasing(s: seq<Id>)
  {
    forall i, j :: 0 <= i < j < |s| ==> s[i] < s[j]
  }

  /** The smallest element of a non-empty set of ids. */
  function MinId(s: set<Id>): (m: Id)
    requires s != {}
    ensures m in s && forall x :: x in s ==> m <= x
  {
    HasMin(s);
    var m :| m in s && forall x :: x in s ==> m <= x;
    m
  }

  lemma HasMin(s: set<Id>)
    requires s != {}
    ensures exists m :: m in s && forall x :: x in s ==> m <= x
    decreases |s|
  {
    NonEmptyHasElement(s);
    var y :| y in s;
    if s != {y} {
      HasMin(s - {y});
      var m :| m in s - {y} && forall x :: x in s - {y} ==> m <= x;
      var least := if y < m then y else m;
      forall x | x in s
        ensures least <= x
      {
        if x != y { assert x in s - {y}; }
      }
    }
  }

  lemma NonEmptyHasElement(s: set<Id>)
    requires s != {}
    ensures exists y :: y in s
  {
    if forall y :: y !in s {
      assert false;
    }
  }

  /** A set of ids listed in ascending order. */
  function SortedIds(s: set<Id>): (r: seq<Id>)
    ensures StrictlyIncreasing(r)
    ensures forall x :: x in s <==> x in r
    ensures |r| == |s|
    decreases |s|
  {
    if s == {} then []
    else
      var m := MinId(s);
      [m] + SortedIds(s - {m})
  }

  /** The actors linked to a film, by id ascending. */
  function CastOf(db: Db, filmId: Id): seq<Id>
  {
    SortedIds(set l | l in db.links && l.filmId == filmId :: l.actorId)
  }

  /** The films linked to an actor, by id ascending. */
  function FilmsOf(db: Db, actorId: Id): seq<Id>
  {
    SortedIds(set l | l in db.links && l.actorId == actorId :: l.filmId)
  }

  // ----- statements on `films` -----

  /** `INSERT INTO films(...) VALUES(...) RETURNING id` */
  function InsertFilm(db: Db, f: Film): (out: (Db, Id))
    ensures out.0 == db.(films := db.films[out.1 := f], nextFilmId := out.1 + 1)
    ensures Valid(db) ==> out.1 !in db.films && out.1 >= 1 && Valid(out.0)
  {
    var id := db.nextFilmId;
    (db.(films := db.films[id := f], nextFilmId := id + 1), id)
  }

  /** `UPDATE films SET ... WHERE id = $5`, with the number of rows it touched. */
  function UpdateFilmRow(db: Db, id: Id, f: Film): (out: (Db, nat))
    ensures id in db.films ==> out == (db.(films := db.films[id := f]), 1)
    ensures id !in db.films ==> out == (db, 0)
    ensures Valid(db) ==> Valid(out.0)
  {
    if id in db.films then (db.(films := db.films[id := f]), 1) else (db, 0)
  }

  /** `DELETE FROM films WHERE id = $1`; the film's links go with it. */
  function DeleteFilmRow(db: Db, id: Id): (out: (Db, nat))
    ensures out.1 == (if id in db.films then 1 else 0)
    ensures id !in out.0.films && out.0.films == db.films - {id}
    ensures out.0.actors == db.actors && out.0.auth == db.auth
    ensures forall l :: l in out.0.links <==> l in db.links && l.filmId != id
    ensures Valid(db) ==> Valid(out.0)
    ensures Valid(db) && id !in db.films ==> out.0 == db
  {
    var db' := db.(films := db.films - {id}, links := set l | l in db.links && l.filmId != id);
    if id in db.films then (db', 1)
    else
      assert Valid(db) ==> db'.links == db.links;
      (db', 0)
  }

  // ----- statements on `film_actor` -----

  /**
    `INSERT INTO film_actor(actor_id, film_id) VALUES($1, $2)`: a missing
    row on either side violates the foreign key, the trigger may refuse the
    pairing, and a pair already present violates the unique key.
   */
  function InsertLink(db: Db, trigger: Trigger, actorId: Id, filmId: Id): (r: Result<Db>)
    ensures !r.Panicked?
    ensures r.Ok? <==> (actorId in db.actors && filmId in db.films
      && trigger(db.actors[actorId], db.films[filmId]) && Link(actorId, filmId) !in db.links)
    ensures r.Ok? ==> r.value == db.(links := db.links + {Link(actorId, filmId)})
    ensures (actorId !in db.actors || filmId !in db.films) ==> r == Err(PgError(ForeignKeyViolation))
    ensures actorId in db.actors && filmId in db.films && !trigger(db.actors[actorId], db.films[filmId]) ==>
      r == Err(PgError(RaiseException))
    ensures r.Err? ==> r.error in {PgError(ForeignKeyViolation), PgError(RaiseException), PgError(UniqueViolation)}
    ensures Valid(db) && r.Ok? ==> Valid(r.value)
  {
    if actorId !in db.actors || filmId !in db.films then Err(PgError(ForeignKeyViolation))
    else if !trigger(db.actors[actorId], db.films[filmId]) then Err(PgError(RaiseException))
    else if Link(actorId, filmId) in db.links then Err(PgError(UniqueViolation))
    else Ok(db.(links := db.links + {Link(actorId, filmId)}))
  }

  /** `DELETE FROM film_actor WHERE film_id = $1` */
  function DeleteLinksOfFilm(db: Db, filmId: Id): (db': Db)
    ensures db'.films == db.films && db'.actors == db.actors && db'.auth == db.auth
    ensures db'.nextFilmId == db.nextFilmId && db'.nextActorId == db.nextActorId
    ensures forall l :: l in db'.links <==> l in db.links && l.filmId != filmId
    ensures Valid(db) ==> Valid(db')
  {
    db.(links := set l | l in db.links && l.filmId != filmId)
  }

  // ----- statements on `actors` -----

  /** `INSERT INTO actors(name, gender, birthday) VALUES(...) RETURNING id` */
  function InsertActor(db: Db, a: Actor): (out: (Db, Id))
    ensures out.0 == db.(actors := db.actors[out.1 := a], nextActorId := out.1 + 1)
    ensures Valid(db) ==> out.1 !in db.actors && out.1 >= 1 && Valid(out.0)
  {
    var id := db.nextActorId;
    (db.(actors := db.actors[id := a], nextActorId := id + 1), id)
  }

  /** `UPDATE actors SET ... WHERE id = $4` */
  function UpdateActorRow(db: Db, id: Id, a: Actor): (out: (Db, nat))
    ensures id in db.actors ==> out == (db.(actors := db.actors[id := a]), 1)
    ensures id !in db.actors ==> out == (db, 0)
    ensures Valid(db) ==> Valid(out.0)
  {
    if id in db.actors then (db.(actors := db.actors[id := a]), 1) else (db, 0)
  }

  /** `DELETE FROM actors WHERE id = $1`; the actor's links go with it. */
  function DeleteActorRow(db: Db, id: Id): (out: (Db, nat))
    ensures out.1 == (if id in db.actors then 1 else 0)
    ensures id !in out.0.actors && out.0.actors == db.actors - {id}
    ensures out.0.films == db.films && out.0.auth == db.auth
    ensures forall l :: l in out.0.links <==> l in db.links && l.actorId != id
    ensures Valid(db) ==> Valid(out.0)
    ensures Valid(db) && id !in db.actors ==> out.0 == db
  {
    var db' := db.(actors := db.actors - {id}, links := set l | l in db.links && l.actorId != id);
    if id in db.actors then (db', 1)
    else
      assert Valid(db) ==> db'.links == db.links;
      (db', 0)
  }

  // ----- statements on `auth` -----

  /** `INSERT INTO auth(login, hash, is_admin) VALUES($1, $2, $3)` */
  function InsertCredential(db: Db, login: string, hash: string, isAdmin: bool): (r: Result<Db>)
    ensures !r.Panicked?
    ensures login in db.auth <==> r == Err(PgError(UniqueViolation))
    ensures login !in db.auth ==> r == Ok(db.(auth := db.auth[login := Credential(hash, isAdmin)]))
    ensures r.Ok? && Valid(db) ==> Valid(r.value)
  {
    if login in db.auth then Err(PgError(UniqueViolation))
    else Ok(db.(auth := db.auth[login := Credential(hash, isAdmin)]))
  }
}
