# filmoteka, modelled in Dafny

filmoteka is a small film-library HTTP service written in Go. This project models its core:

- the JSON duplicate pre-pass (`pkg/json-duplicate-checker`) and the request gate built on it (`pkg/json-http-validator`);
- the two access-control middlewares (`internal/filmoteka/middleware/jwt.go`);
- the transaction and connection wrappers (`internal/filmoteka/repository/postgres.go`);
- the film, actor and authorization repositories, over an explicit in-memory database.

Everything is a pure function over immutable datatypes.

- **Tokens.** The JSON decoder is a list of tokens.
- **Errors.** Go errors are a tree of wrapped and joined values, so `errors.Is` and `errors.As` are stated exactly (`Errors`).
- **Panics.** A runtime panic is its own outcome, `Panicked`. It is never confused with a returned error.
- **Database.** It is a value `Db`: films, actors, the `film_actor` links, the `auth` table and the two id sequences.
- **Statements.** Each SQL statement is a function from the tables before it to the tables after it, or to the SQLSTATE the server answers with (`Store`).
- **Transactions.** A transaction is snapshot/restore. `WithTransaction` hands back the body's tables only when it commits, and the original tables on every other path. It also records the events it performs: acquire, begin, body, commit or rollback, release.
- **Migrations.** The schema's migrations are not part of the model. What the statements rely on is a parameter or stated in `Store`:
  - the insert trigger on `film_actor` is a parameter (`Trigger`: "the actor was born before the film's release");
  - the foreign keys cascade on delete;
  - the link pair and `auth.login` are unique.
  - a rejected `film_actor` insert is reported as a foreign-key violation (23503) when the actor or film is missing, otherwise as the trigger's exception (P0001) when the actor is born too late, otherwise as a unique violation (23505). This order is itself an assumption: which check fires first depends on how the migrations define the trigger and the constraints.

Modules, by source file:

| module | file | models |
|---|---|---|
| `Errors` | errors.dfy | sentinel errors (`errors/db.go`, `errors/json.go`), wrapping, `errors.Is`/`errors.As`, the `for rows.Next()` collection loop |
| `DuplicateCheck` | duplicate_check.dfy | `CheckDuplicatesInJSON`, `checkObject`, `checkArray` as written |
| `JsonDocument` | json_document.dfy | JSON documents, their token streams, and what "repeats a key or element" means |
| `DuplicateCheckFixed` | duplicate_check_fixed.dfy | the corrected pre-pass and its exactness proof |
| `DuplicateCheckFindings` | duplicate_check_findings.dfy | where the source and the corrected pre-pass agree, and three inputs where they do not |
| `DuplicateCheckProperties` | duplicate_check_properties.dfy | the promised behaviour of the pre-pass on keys and scalar arrays |
| `JsonHttpValidator` | validate.dfy | `ValidateJSONRequest` |
| `Jwt` | jwt.dfy | `CheckIsAdminInJWT` with the token parser as a parameter |
| `Middleware` | middleware.dfy | `AdminRequired`, `AuthorizationRequired` |
| `Postgres` | postgres.dfy | `WithTransaction`, `Rollback`, `WithConnection` |
| `Store` | store.dfy | tables and SQL statements |
| `Pagination` | pagination.dfy | `LIMIT limit OFFSET (page-1)*limit` with Go's 64-bit arithmetic |
| `Ordering` | ordering.dfy | `ORDER BY <field> <direction>` for the film listing |
| `FilmRepository` | film_repository.dfy | `CreateFilm`, `UpdateFilm`, `DeleteFilm`, `ReadFilms`, `FindFilms` |
| `ActorRepository` | actor_repository.dfy | `CreateActor`, `UpdateActor`, `DeleteActor`, `ReadActors` |
| `AuthorizationRepository` | authorization_repository.dfy | `Register`, `GetPasswordHash`, `IsAdmin` |

## Model

| member | source | states |
|---|---|---|
| Errors.AsPgError | internal/filmoteka/repository/film.go:45-47 | `errors.As(err, &pgErr)` finds a server error exactly when one is in the wrap/join tree, and the code it returns belongs to such an error |
| Errors.WrapErr | internal/filmoteka/repository/film.go:63-65 | wrapping with a context keeps success, its value and panics as they are, and everything `errors.Is` finds in the inner error is still found |
| Errors.Collect | internal/filmoteka/repository/actor.go:121-164 | a row loop succeeds exactly when every row does, and then holds one value per row in order; a failure is the failure of some row |
| DuplicateCheck.CheckDuplicatesInJSON | pkg/json-duplicate-checker/duplicate_check.go:10-26 | empty input is an error (EOF) and never a success; a top-level scalar is accepted, consuming one token; a success consumes a non-empty prefix |
| DuplicateCheck.CheckObject | pkg/json-duplicate-checker/duplicate_check.go:28-50 | the object loop consumes a non-empty prefix of the stream when it succeeds |
| DuplicateCheck.CheckArray | pkg/json-duplicate-checker/duplicate_check.go:52-74 | the array loop consumes a non-empty prefix of the stream when it succeeds |
| DuplicateCheckProperties.ScalarArrayVerdict | pkg/json-duplicate-checker/duplicate_check.go:52-74 | an array of scalars passes exactly when no two elements print alike; otherwise the error names the first element repeating an earlier one, with its text and index; `1` and `"1"` count as equal |
| DuplicateCheckProperties.RepeatedKeyReportedAtKey | pkg/json-duplicate-checker/duplicate_check.go:37-39 | a key met again in the same object is reported with the parent path plus the key, before anything after it is read |
| DuplicateCheckProperties.KeyLoop | pkg/json-duplicate-checker/duplicate_check.go:30-45 | the object loop over clean members reaches a repeated key and reports it with the object's path plus the key |
| DuplicateCheckProperties.KeysAndValuesApart | pkg/json-duplicate-checker/duplicate_check.go:29-53 | keys and array elements are remembered in separate sets: key `"1"` holding `["1"]` passes |
| DuplicateCheckProperties.DuplicateUnderKeyReported | pkg/json-duplicate-checker/duplicate_check.go:42-68 | an object's values are checked in turn, so `{"a":[1,1]}` reports the second `1` at index 1 under path `a` |
| DuplicateCheckFixed.CheckIsExact | pkg/json-duplicate-checker/duplicate_check.go:52-74 | the corrected pre-pass is exact on every document: it stops right after a document that repeats nothing and reports a duplicate in one that does; it never panics |
| DuplicateCheckFixed.ItemsExact | pkg/json-duplicate-checker/duplicate_check.go:55-69 | the corrected array loop passes exactly when no scalar repeats and no nested container holds a duplicate |
| DuplicateCheckFixed.MembersExact | pkg/json-duplicate-checker/duplicate_check.go:30-45 | the object loop passes exactly when no key repeats and no value holds a duplicate |
| DuplicateCheckFindings.AgreesOnFlatArrays | pkg/json-duplicate-checker/duplicate_check.go:52-74 | on documents whose arrays hold only scalars, the source's pre-pass gives the corrected one's answer, so there it is exact |
| DuplicateCheckFindings.FalseDuplicateInArray | pkg/json-duplicate-checker/duplicate_check.go:55-66 | `[1,{"a":1}]` repeats nothing, yet the source reports `1` at index 3; the corrected pre-pass accepts it |
| DuplicateCheckFindings.MissedDuplicateAfterNestedObject | pkg/json-duplicate-checker/duplicate_check.go:55-73 | `[{"x":1},2,2]` repeats `2`, yet the source stops at the object's `}` and accepts; the corrected pre-pass rejects it |
| DuplicateCheckFindings.KeyAssertionPanics | pkg/json-duplicate-checker/duplicate_check.go:35 | `{"a":[{"b":1},2]}` repeats nothing, yet the source's key assertion `t.(string)` panics on `2`; the corrected pre-pass accepts it |
| JsonHttpValidator.CheckFailure | pkg/json-http-validator/validate.go:29-33 | the error written for a failed check names `ErrDuplicateInJSON` exactly when the check found a duplicate |
| JsonHttpValidator.ValidateJSONRequest | pkg/json-http-validator/validate.go:15-38 | the steps run in order MIME, then read, then duplicates, and the first failure wins; a wrong type leaves the body unread; every rejection is 400 with `ErrWrongRequestWithJSON`; acceptance needs all three steps and hands on the original bytes |
| JsonHttpValidator.GateIsExactOnFlatDocuments | pkg/json-http-validator/validate.go:15-38 | on a body holding a document whose arrays are scalar-only, the gate accepts exactly when the document repeats nothing, and otherwise names `ErrDuplicateInJSON` |
| Jwt.CheckIsAdminInJWT | pkg/jwt/jwt.go:34-46 | a token the parser refuses yields `ErrTokenIsInvalid` and no admin flag; an accepted token yields its admin claim |
| Middleware.TrimPrefix | internal/filmoteka/middleware/jwt.go:20 | `strings.TrimPrefix`: a string with the prefix loses exactly the prefix; one without is unchanged |
| Middleware.ExtractToken | internal/filmoteka/middleware/jwt.go:20-29 | the token is the header with `Bearer ` stripped; the `authToken` cookie is used only when that is empty |
| Middleware.RejectCheckError | internal/filmoteka/middleware/jwt.go:32-40 | a token-check error matching `ErrTokenIsInvalid` gives 401; any other gives 500 `ErrSomethingWentWrong` |
| Middleware.AdminRequired | internal/filmoteka/middleware/jwt.go:16-50 | no token gives 401 `ErrNoTokenProvided`; the request proceeds (and `next` runs) exactly for a valid admin token; a valid non-admin token gives 403 |
| Middleware.AuthorizationRequired | internal/filmoteka/middleware/jwt.go:52-81 | no token gives 401; the request proceeds exactly for a valid token, whatever its admin flag |
| Middleware.BareTokenUsedAsIs | internal/filmoteka/middleware/jwt.go:20 | a header without the `Bearer ` prefix is used as the token unchanged |
| Middleware.BearerHeaderYieldsToken | internal/filmoteka/middleware/jwt.go:20 | `Bearer <t>` yields `t` |
| Middleware.GatesDifferOnlyInForbidden | internal/filmoteka/middleware/jwt.go:43-48 | the two middlewares differ only where `AdminRequired` answers 403; whatever passes the admin gate passes the other |
| Middleware.NoInternalErrorWithTokenCheck | internal/filmoteka/middleware/jwt.go:31-40 | with the real token check every failure is an invalid token, so neither middleware ever answers 500 |
| Postgres.RollbackTx | internal/filmoteka/repository/postgres.go:73-80 | a rollback failure is dropped exactly when it is `ErrTxClosed`; otherwise it is returned wrapped, with its kinds intact |
| Postgres.WithTransaction | internal/filmoteka/repository/postgres.go:42-71 | acquire or begin failure: the body never runs and the store is unchanged. Body failure: rollback and never commit, with the body's error kinds kept and a failed rollback joined to it. Commit only after a successful body, and a commit failure is returned. The connection is released whenever it was acquired. The body's store survives exactly on success |
| Postgres.WithConnection | internal/filmoteka/repository/postgres.go:82-95 | an acquire failure skips the body; otherwise the body's outcome is returned with its error kinds intact, and the connection is released |
| Store.GenderName | internal/filmoteka/repository/actor.go:127-131 | `true` (Female) shows as `"female"` and `false` (Male) as `"male"`, and only those |
| Store.SortedIds | internal/filmoteka/repository/film.go:207 | `ORDER BY actor_id ASC`: exactly the set's ids, each once, strictly ascending |
| Store.InsertFilm | internal/filmoteka/repository/film.go:33 | the new film gets the sequence's next id, which no stored film has, and the store stays consistent |
| Store.UpdateFilmRow | internal/filmoteka/repository/film.go:125-132 | an existing row is replaced and counted once; a missing id changes nothing and counts zero |
| Store.DeleteFilmRow | internal/filmoteka/repository/film.go:169-176 | the film goes, with every link to it; the affected-row count is 1 exactly when it existed |
| Store.InsertLink | internal/filmoteka/repository/film.go:39 | the link is added exactly when both rows exist, the trigger admits it and it is new; otherwise 23503, P0001 or 23505, checked in that order |
| Store.DeleteLinksOfFilm | internal/filmoteka/repository/film.go:134 | removes exactly the film's links and nothing else |
| Store.InsertActor | internal/filmoteka/repository/actor.go:31 | the new actor gets the sequence's next id, which no stored actor has |
| Store.UpdateActorRow | internal/filmoteka/repository/actor.go:71 | an existing actor row is replaced; a missing id changes nothing |
| Store.DeleteActorRow | internal/filmoteka/repository/actor.go:88-95 | the actor goes, with every link to it; the count is 1 exactly when it existed |
| Store.InsertCredential | internal/filmoteka/repository/authorization.go:31 | a taken login answers 23505 and nothing else does; a new login is stored with the given hash and flag |
| Pagination.Wrap64 | internal/filmoteka/repository/film.go:192 | Go's 64-bit `int` arithmetic leaves in-range values unchanged |
| Pagination.Wrap64Congruent | internal/filmoteka/repository/film.go:192 | a wrapped value differs from the true one by a multiple of 2^64 |
| Pagination.LimitOffset | internal/filmoteka/repository/film.go:192 | a negative offset is refused first (2201X), then a negative limit (2201W); otherwise the result is the rows from the offset on, at most `limit` of them, in order |
| Pagination.ScannedPage | internal/filmoteka/repository/film.go:192-199 | the rows a `rows.Next()` loop reads when nothing reads `rows.Err()`: the accepted window, or nothing when the server refuses a negative offset or limit; never more than `limit` rows |
| Pagination.PageIntended | internal/filmoteka/repository/film.go:192 | the page asked for: empty past the last row, and otherwise rows `(page-1)*limit` up to `page*limit` |
| Pagination.PageAgreesWithoutOverflow | internal/filmoteka/repository/film.go:192 | while `page*limit` fits in 64 bits, the source's page is the intended page |
| Pagination.OffsetWrapsToFirstPage | internal/filmoteka/repository/film.go:192 | page 2^62+1 with limit 4 wraps the offset to 0 and returns the first page, where the intended answer is empty |
| Pagination.PagesPartitionRows | internal/filmoteka/repository/film.go:192 | reading pages 1..n in turn yields the first `n*limit` rows once each, in order, with no gap or overlap |
| Pagination.OffsetExact | internal/filmoteka/repository/film.go:192 | while `page*limit` fits in 64 bits, the offset sent is exactly `(page-1)*limit` |
| Pagination.FirstPageIsAll | internal/filmoteka/repository/actor.go:110 | page 1 with a limit covering every row is all rows in order |
| Ordering.Insert | internal/filmoteka/repository/film.go:191 | inserting into a sorted listing keeps it sorted and adds exactly that row |
| Ordering.SortRows | internal/filmoteka/repository/film.go:191 | `ORDER BY field direction`: a permutation of the rows that is sorted |
| Ordering.SortedIsUnique | internal/filmoteka/repository/film.go:191 | two sorted arrangements of the same rows with distinct ids are equal, so the listing does not depend on storage order |
| Ordering.PrecedesTotal | internal/filmoteka/repository/film.go:191 | any two rows are ordered one way or the other |
| Ordering.PrecedesTransitive | internal/filmoteka/repository/film.go:191 | the listing order is transitive |
| Ordering.PrecedesAntisymmetric | internal/filmoteka/repository/film.go:191 | rows ordered both ways have the same id |
| FilmRepository.InsertLinks | internal/filmoteka/repository/film.go:38-43 | the link loop stops at the first failure. It succeeds exactly when every actor exists, is admitted by the trigger, is listed once and is not yet linked, and then adds exactly those links. A failure is 23503, P0001 or 23505, each tied to its cause |
| FilmRepository.TranslateLinkError | internal/filmoteka/repository/film.go:45-57 | P0001 becomes `ErrActorNotBornBeforeFilmRelease`, 23503 becomes `ErrActorDoesNotExist`, any other error passes through |
| FilmRepository.CreateFilmBody | internal/filmoteka/repository/film.go:32-61 | on a consistent store the body succeeds exactly when the cast is admissible; a missing actor gives `ErrActorDoesNotExist` and an unborn one `ErrActorNotBornBeforeFilmRelease` |
| FilmRepository.CreateFilm | internal/filmoteka/repository/film.go:30-68 | film and links are inserted in one transaction and any failure leaves the store unchanged. With a healthy connection it succeeds exactly when the cast is admissible. The new id is fresh, and the error kinds are as translated. A success changes only the films and links: actors and logins are kept |
| FilmRepository.MergeFilm | internal/filmoteka/repository/film.go:108-123 | an empty title or description, the zero date and a nil rating take the stored values; anything given replaces them |
| FilmRepository.MergeIdempotent | internal/filmoteka/repository/film.go:108-123 | merging the same request twice gives what merging once gives |
| FilmRepository.UpdateFilmBody | internal/filmoteka/repository/film.go:79-158 | a missing id is `ErrNotFoundInDB` with no write. An existing film is updated exactly when its chosen cast has no repeats and every actor exists and is admitted by the trigger for the merged film. A cast whose only fault is a missing actor gives `ErrActorDoesNotExist`, and one whose only fault is an unborn actor gives `ErrActorNotBornBeforeFilmRelease`. On success the merged film is stored, the film's links become exactly the chosen cast, and other films' links are untouched |
| FilmRepository.UpdateFilm | internal/filmoteka/repository/film.go:70-165 | through the transaction wrapper, and with a healthy pool, it succeeds exactly when the film exists and its chosen cast is admitted for the merged film. A missing film is `ErrNotFoundInDB`. A missing or unborn actor reaches the caller as `ErrActorDoesNotExist` or `ErrActorNotBornBeforeFilmRelease`. Any failure leaves the store unchanged, and success writes the merged film and exactly the chosen cast |
| FilmRepository.EmptyUpdateBody | internal/filmoteka/repository/film.go:79-158 | on a consistent store, an update giving nothing to a film whose cast the trigger still admits succeeds and rewrites the store to exactly what it was |
| FilmRepository.UpdateCastChoice | internal/filmoteka/repository/film.go:89-106 | a nil actor list keeps the stored cast, while an empty one clears it |
| FilmRepository.CastReinsertable | internal/filmoteka/repository/film.go:134-155 | after the links are deleted, the stored cast can be inserted again when the trigger still admits it, so the cast is re-checked on every update |
| FilmRepository.EmptyUpdateIsNoOp | internal/filmoteka/repository/film.go:70-165 | an update giving nothing, on a film whose cast the trigger still admits, succeeds and leaves the store as it was |
| FilmRepository.DeleteFilm | internal/filmoteka/repository/film.go:167-186 | succeeds exactly on a healthy connection and an existing film, removing it with its links and keeping actors and logins; a missing film is `ErrNotFoundInDB` and changes nothing |
| FilmRepository.CreateDeleteDelete | internal/filmoteka/repository/film.go:30-186 | creating a film and deleting it restores the film table, and deleting it again is `ErrNotFoundInDB` |
| FilmRepository.ResolveCast | internal/filmoteka/repository/film.go:207-239 | each cast id is looked up in turn, and a missing actor ends the listing with `ErrNoRows`; on success the cast is in id order with gender shown as text |
| FilmRepository.ShowFilm | internal/filmoteka/repository/film.go:200-239 | a listed film carries its id, title, description, release date and rating, and its cast ascending by id, each member with the stored name, gender as text and birthday; it fails exactly when a cast member is missing |
| FilmRepository.ShowFilms | internal/filmoteka/repository/film.go:196-241 | a page of rows becomes listing entries in order, failing exactly when some cast does not resolve |
| FilmRepository.AllFilms | internal/filmoteka/repository/film.go:191 | every stored film once, by id, with its stored columns |
| FilmRepository.ListingOf | internal/filmoteka/repository/film.go:191 | the rows of a set of stored films: each film once, with its stored columns, ascending by id |
| FilmRepository.RunListing | internal/filmoteka/repository/film.go:190-251 | a listing runs on one acquired connection: an acquire failure is returned, otherwise the body's outcome, with its error kinds kept under the wrap |
| FilmRepository.ShowPage | internal/filmoteka/repository/film.go:192-244 | the entries are the rows the `rows.Next()` loop reads, in order, each shown with its stored columns and its cast (name, gender as text, birthday). A window the server refuses (a negative offset or limit) reads as an empty page and not an error, because `rows.Err()` is never read. On a consistent store it always succeeds |
| FilmRepository.ShowPageChecked | internal/filmoteka/repository/film.go:192-244 | the corrected loop, with `rows.Err()` read. A negative offset is refused with 2201X, then a negative limit with 2201W. On a consistent store an accepted window succeeds, and its entries are exactly that window |
| FilmRepository.ReadFilmsBody | internal/filmoteka/repository/film.go:190-244 | the result is the window of the sorted listing the loop reads, and is itself sorted. A refused window gives an empty success. On a consistent store it succeeds |
| FilmRepository.ReadFilms | internal/filmoteka/repository/film.go:188-252 | an acquire failure is returned, and with a connection a consistent store always succeeds. The films are the window `LIMIT limit OFFSET (page-1)*limit` of the listing sorted as asked, so when the server accepts the window, `Page(sorted listing, page, limit)` is exactly the returned rows. A refused window is no films and no error. At most `limit` films, each with its stored columns and each cast member's stored name, gender and birthday |
| FilmRepository.ReadFilmsChecked | internal/filmoteka/repository/film.go:188-252 | the corrected listing reports a refused window: a negative offset is an error matching 2201X, and a negative limit one matching 2201W. An accepted window on a consistent store succeeds with exactly that page |
| FilmRepository.CheckedAgreesOnAcceptedPages | internal/filmoteka/repository/film.go:188-252 | whenever the server accepts the window, the listing as written and the corrected one return the same result |
| FilmRepository.RefusedPageReadsEmpty | internal/filmoteka/repository/film.go:192-199 | page 0 with limit 4 gives offset -4, and page 2^61+1 with limit 4 wraps the offset to -2^63. For both, `ReadFilms` returns no films and no error, while the corrected listing returns the 2201X refusal |
| FilmRepository.ReadFilmsPageSize | internal/filmoteka/repository/film.go:192 | without overflow, page `page` holds the films from position `(page-1)*limit` on, at most `limit` of them |
| FilmRepository.SearchOf | internal/filmoteka/repository/film.go:262-274 | both fragments select title-and-name; only the name selects name-only; otherwise title-only |
| FilmRepository.MatchingFilms | internal/filmoteka/repository/film.go:257-274 | `SELECT DISTINCT`: every matching stored film exactly once, by id |
| FilmRepository.FindFilmsBody | internal/filmoteka/repository/film.go:256-328 | the window of the matching films the loop reads: at most `limit` films, each matching the chosen branch, ids strictly ascending. A refused window gives an empty success. On a consistent store it succeeds |
| FilmRepository.FindFilms | internal/filmoteka/repository/film.go:254-335 | an acquire failure is returned, and with a connection a consistent store always succeeds. The films are the window of the matching films, so when the server accepts the window, `Page(matching films, page, limit)` is exactly the returned rows. A refused window is no films and no error. Each film matches the chosen branch and appears once, with its stored columns and each cast member's stored name, gender and birthday |
| FilmRepository.FirstPageFindsAll | internal/filmoteka/repository/film.go:254-335 | page 1 with a limit covering all matches lists every matching film |
| FilmRepository.FoundFilms | internal/filmoteka/repository/film.go:262-274 | a page of matches holds at most `limit` matching films in ascending id order |
| ActorRepository.CreateActorBody | internal/filmoteka/repository/actor.go:30-32 | the single insert returns the generated id and stores the actor under it |
| ActorRepository.CreateActor | internal/filmoteka/repository/actor.go:28-39 | succeeds exactly on a healthy connection, storing the actor under a fresh id and touching nothing else; any failure changes nothing |
| ActorRepository.MergeActor | internal/filmoteka/repository/actor.go:58-69 | an empty name and the zero birthday take the stored values; the given gender is written |
| ActorRepository.UpdateActorBody | internal/filmoteka/repository/actor.go:42-77 | a missing id is `ErrNotFoundInDB` with no write; an omitted gender on an existing actor panics; otherwise the merged actor is written |
| ActorRepository.UpdateActor | internal/filmoteka/repository/actor.go:41-84 | the same through the transaction wrapper: it panics exactly when the actor exists and no gender is given, and any non-success leaves the store unchanged |
| ActorRepository.UpdateActorIntended | internal/filmoteka/repository/actor.go:41-84 | the intended update never panics, succeeds exactly for an existing actor on a healthy connection, and keeps every omitted field, the gender included. A success changes only that actor's row: films, links, other actors and logins are kept |
| ActorRepository.UpdateActorNilGender | internal/filmoteka/repository/actor.go:62-64 | with a gender given the two updates are the same call; without one the source panics where the intended update keeps the stored gender |
| ActorRepository.UpdateActorIntendedBody | internal/filmoteka/repository/actor.go:42-77 | the intended body never panics; it is `ErrNotFoundInDB` without a write for a missing actor, and succeeds for an existing one |
| ActorRepository.NilGenderCounterexample | internal/filmoteka/repository/actor.go:62-64 | renaming actor 1 without a gender panics in the source and succeeds in the intended update |
| ActorRepository.DeleteActor | internal/filmoteka/repository/actor.go:86-105 | succeeds exactly on a healthy connection and an existing actor, removing it with its links and keeping films and logins; a missing actor is `ErrNotFoundInDB` and changes nothing |
| ActorRepository.DeleteActorBody | internal/filmoteka/repository/actor.go:87-98 | the delete succeeds exactly when the actor exists; otherwise it is `ErrNotFoundInDB` |
| ActorRepository.DeletedActorLeavesCasts | internal/filmoteka/repository/actor.go:86-105 | after an actor is deleted no film lists it |
| ActorRepository.ResolveFilms | internal/filmoteka/repository/actor.go:147-160 | each film id is looked up in turn, and a missing film ends the listing with `ErrNoRows` |
| ActorRepository.ShowActor | internal/filmoteka/repository/actor.go:122-163 | a listed actor carries name, gender as text, birthday and linked films ascending by id, each film with its stored title, description, release date and rating; it fails exactly when a film is missing |
| ActorRepository.ShowIdPage | internal/filmoteka/repository/actor.go:121-164 | on a consistent store every actor of the page is shown, in page order |
| ActorRepository.ShowActors | internal/filmoteka/repository/actor.go:121-164 | the actor loop shows each actor of the page in order; it succeeds whenever every linked film exists, and never panics |
| ActorRepository.AllActorIds | internal/filmoteka/repository/actor.go:110 | every stored actor id once, ascending |
| ActorRepository.PageOfIds | internal/filmoteka/repository/actor.go:110 | a page of actor ids holds at most `limit` stored ids, ascending |
| ActorRepository.ReadActorsBody | internal/filmoteka/repository/actor.go:109-167 | the ids shown are the window of the ascending actor ids the loop reads. A refused window gives an empty success. At most `limit` actors, each with its stored columns and every linked film's stored title, description, release date and rating. On a consistent store it succeeds |
| ActorRepository.ReadActors | internal/filmoteka/repository/actor.go:107-174 | an acquire failure is returned, and with a connection a consistent store always succeeds. The actors are the window of the ascending actor ids, so when the server accepts the window, `Page(actor ids, page, limit)` is exactly the returned ids. A refused window is an empty list and no error |
| ActorRepository.ReadActorsFirstPageAll | internal/filmoteka/repository/actor.go:107-174 | page 1 with a limit covering every actor lists each stored actor once |
| AuthorizationRepository.TranslateRegisterError | internal/filmoteka/repository/authorization.go:33-38 | a unique violation becomes `ErrAlreadyRegistered`; any other error passes through |
| AuthorizationRepository.RegisterBody | internal/filmoteka/repository/authorization.go:30-42 | a new login is stored with `is_admin = false`; a taken one is `ErrAlreadyRegistered` with no change |
| AuthorizationRepository.Register | internal/filmoteka/repository/authorization.go:29-49 | succeeds exactly on a healthy connection and a new login, storing the hash with no admin rights; otherwise the store is unchanged, and a taken login is `ErrAlreadyRegistered` |
| AuthorizationRepository.Lookup | internal/filmoteka/repository/authorization.go:54-58 | a known login yields its row; an unknown one `ErrUserNotFound` |
| AuthorizationRepository.GetPasswordHash | internal/filmoteka/repository/authorization.go:51-71 | the stored hash for a known login; `ErrUserNotFound` for an unknown one |
| AuthorizationRepository.IsAdmin | internal/filmoteka/repository/authorization.go:73-93 | the stored flag for a known login; `ErrUserNotFound` for an unknown one |
| AuthorizationRepository.RegisterThenLookup | internal/filmoteka/repository/authorization.go:31-92 | after a successful registration the login reads back its hash and is not an admin |
| AuthorizationRepository.RegisterTwice | internal/filmoteka/repository/authorization.go:29-49 | registering a taken login fails and changes nothing, so the first hash stays |
| AuthorizationRepository.RegisterKeepsOthers | internal/filmoteka/repository/authorization.go:29-93 | registration leaves every other login's hash and flag as they were |

## Left out

- The decoder's own syntax errors: token lists stand for what the Go lexer produces. `CheckDuplicatesInJSON` on tokens that form no document is modelled, but no malformed byte input is.
- `pkg/json-mime-checker` is not part of this model; the MIME check is a parameter. Also, `pkg/http-error-writer` is reduced to the status and error it writes.
- Token signing, HMAC and expiry (`pkg/jwt`): the parser is a parameter that accepts a token with an admin claim or refuses it.
- Ratings are `real`, not `float32`; a rating is an opaque, totally ordered value.
- `ILIKE` case-insensitive matching is a parameter (`Contains`).
- The `Sprintf` into `ORDER BY`: the field and direction come from an allow-list in a handler, so they are datatypes with three and two values.
- Ties: `ORDER BY` on one column leaves rows with equal values in an unspecified order. The model breaks ties by ascending id.
- Unordered queries in ascending id: `ReadActors`, `FindFilms`, the films of an actor, and the stored cast read by `UpdateFilm` have no `ORDER BY`. The model returns their rows in ascending id. PostgreSQL promises no order there.
- Concurrency, context cancellation and pool blocking. The repository calls are atomic functions of one database value.
- Id sequences never have gaps here. A failed insert does not advance them, because a failed transaction restores the whole store, sequences included.
- nil vs. empty slices in listing results, and date formatting (`time.DateOnly`).
- The birthday trigger fires on `film_actor` inserts only. Changing a film's date or an actor's birthday is not re-checked against existing links, except through the re-insert `UpdateFilm` performs.
- I/O failures of a single statement inside a body, such as a dropped connection mid-query, are not generated by the statement models. The wrappers' acquire, begin, commit and rollback failures are modelled.
- The listing functions look up casts and films through the pool, on separate connections. They are modelled as reads of the same database value.
- Services, handlers, `main`, configuration, migrations, logging and `GetPgxPool`.
- DuplicateCheck.CheckObject, DuplicateCheck.CheckArray: their own contracts say only that a success consumes a non-empty prefix of the stream. Their verdicts are stated by the lemmas of `DuplicateCheckProperties` and `DuplicateCheckFindings`.
- Composition as written: `ValidateJSONRequest` uses the pre-pass as written. Its acceptance is therefore exact only on documents whose arrays hold only scalars (`JsonHttpValidator.GateIsExactOnFlatDocuments`).
- Pagination as written: the listing operations use the 64-bit offset as written. They agree with the intended page whenever `page*limit` fits in 64 bits (`Pagination.PageAgreesWithoutOverflow`).
- Swallowed refusals: the listings return a refused window as an empty success, as written. The corrected `ReadFilmsChecked` exists for `ReadFilms` only. `FindFilms` and `ReadActors` end their loops the same way and are not given corrected twins.
- Ordering.SortRows: titles compare by code point (`Ordering.LexLess`, the "C" collation). PostgreSQL compares text by the column's collation, which the migrations fix, and they are not part of this model. Under a locale collation such as en_US, `"apple"` sorts before `"Banana"`; here it sorts after.
- Affected-row count: `UpdateFilm` checks the affected-row count after its `UPDATE`, and the model keeps that branch. The film was just read in the same transaction, so without concurrency the branch is never taken.

## Findings

| source | as written | input that shows it | evidently intended | confidence | as-written member | corrected member |
|---|---|---|---|---|---|---|
| pkg/json-duplicate-checker/duplicate_check.go:55-66 | `checkArray` does not descend into a nested `{` or `[`. It renders the delimiter and keeps looping over the nested tokens, so inner scalars count as array elements | `[1,{"a":1}]` is reported as a duplicate `1` at index 3 | compare only the array's own scalar elements, and check nested containers separately | high, not executed | DuplicateCheckFindings.FalseDuplicateInArray | DuplicateCheckFixed.CheckIsExact |
| pkg/json-duplicate-checker/duplicate_check.go:55-73 | the array loop stops at the nested object's `}` as if the array had ended | `[{"x":1},2,2]` is accepted | report the repeated `2` | high, not executed | DuplicateCheckFindings.MissedDuplicateAfterNestedObject | DuplicateCheckFixed.CheckIsExact |
| pkg/json-duplicate-checker/duplicate_check.go:35 | after the array loop ends early, the object loop reads a non-string token as a key and the assertion `t.(string)` panics | `{"a":[{"b":1},2]}` panics | accept the document | high, not executed | DuplicateCheckFindings.KeyAssertionPanics | DuplicateCheckFixed.CheckIsExact |
| internal/filmoteka/repository/film.go:192-244 | the listing loops `for rows.Next()` and never read `rows.Err()`. PostgreSQL refuses a negative `OFFSET` or `LIMIT` only when the query executes, so `Query` returns no error and the loop just sees no rows. `FindFilms` (film.go:262-328) and `ReadActors` (actor.go:110-167) loop the same way | `ReadFilms` with page 0 and limit 4: the offset is -4, and the call returns no films and no error. Page 2305843009213693953 with limit 4 does the same through a wrapped offset of -2^63 | return the refusal, so an empty page is not confused with a failed query | medium, not executed | FilmRepository.RefusedPageReadsEmpty | FilmRepository.ReadFilmsChecked |
| internal/filmoteka/repository/actor.go:62-64 | an omitted gender (`gender == nil`) is written through: `*gender = genderInDB` dereferences nil | `UpdateActor(1, "Vasily Abcd", nil, zero date)` on a stored actor 1 panics | keep the stored gender, as the name and birthday do | high, not executed | ActorRepository.NilGenderCounterexample | ActorRepository.UpdateActorIntended |
| internal/filmoteka/repository/film.go:192 | the offset `(page-1)*limit` is computed in 64-bit `int` and wraps | page 4611686018427387905, limit 4: the offset wraps to 0 and the first page comes back | an empty page past the last row | low, not executed; a caller may bound `page` | Pagination.OffsetWrapsToFirstPage | Pagination.PageIntended |
