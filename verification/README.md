# siembra-valores: plant, service-history and account routes in Dafny

The siembra-valores backend is an Express API over four Postgres tables:
`usuarios`, `plantas`, `servicios` (a read-only catalog of care services)
and `historiales` (one row per service applied to a plant, with a date).
This project models the two route files that hold the application logic,
`plants.routes.js` and `users.routes.js`:

- `GET /plantas` folds the flat rows of a four-way left join into nested
  user, plant and history records.
- `GET /plants/:id` folds one plant's rows into the plant with its history.
- `POST /plants/create`, `DELETE /plants/delete/:id` and
  `POST /plants/add-services` write plants and history rows.
- `POST /users/create`, `POST /users/login` and `GET /users/get/:id`
  register users, issue login tokens and read a user.

Every handler is a pure function from the tables (`Tables.Store`, each table
a sequence of rows in insertion order) and the request to a status, a body
and the tables afterwards (`Http.Outcome`). Things outside the tables are
parameters:

- `uuid: nat -> string` gives the k-th generated identifier of a request.
- `now` is the date the clock returns.
- `hash` and `verify` stand for bcrypt's hashing and comparison.
- The login token is modelled as what is handed to the signer: the claims,
  the secret `"secreto"` and a lifetime of 3600 seconds.

The two SQL read queries are written as functions over the tables
(module `Queries`). The lookups the write routes issue are in `Tables`.

Modules, in dependency order:

- `Common`: `Option`, JavaScript truthiness of a body field, status codes.
- `Seqs`: removing duplicates in first-occurrence order.
- `Tables`: rows, the store, and single-table lookups.
- `Rows`: the shapes of the joined rows.
- `Aggregate`: the `/plantas` fold, a reference definition by grouping, and
  the proof that they agree.
- `PlantDetail`: the `/plants/:id` fold.
- `Queries`: the two joins.
- `Http`: replies and bodies.
- `PlantRoutes` and `UserRoutes`: the handlers.
- `Api`: dispatch of every modelled route, and the table invariant that the write
  routes keep.

Behaviours of the code worth noting:

- Under `/plantas`, a user without plants gets one plant record whose id
  and name are null and whose history is empty, not an empty plant list.
  The outer join gives such a user a row with null plant columns, and the
  fold's strict-equality lookup matches null to null
  (`Aggregate.UserWithoutPlantsGetsNullPlant`).
- Login with an unknown email answers 400, not 404.
- Registration with a taken email answers 400, and the 201 answer echoes
  the stored row, password hash included.
- `POST /plants/create` does not check that `usuario_id` names a user.
- Deleting a plant leaves its history rows in place
  (`PlantRoutes.DeletePlant` keeps `historiales` unchanged).
- `add-services` compares the number of catalog ids found with the number
  requested. A request that names a valid service twice is therefore
  refused as invalid (`PlantRoutes.DuplicateServiceIdRejected`).

## Model

| member | source | states |
|---|---|---|
| Aggregate.FindUser | api/src/routes/plants.routes.js:30 | the user lookup finds nothing exactly when no record has the row's user id, and otherwise the first record with it |
| Aggregate.FindPlant | api/src/routes/plants.routes.js:42 | the plant lookup finds nothing exactly when no plant record of the user has the row's plant id (null matching null), and otherwise the first one |
| Aggregate.GroupByUserIsExpected | api/src/routes/plants.routes.js:28-62 | the row-by-row fold equals the reference grouping: one record per distinct user id in first-occurrence order, each with one plant record per distinct plant id of that user's rows, each holding the history of that plant's rows with a truthy `historial_id` |
| Aggregate.OneRecordPerUser | api/src/routes/plants.routes.js:29-40 | there are as many user records as distinct user ids in the rows; every record's id occurs in the rows, every row's user has a record, and no two records share an id |
| Aggregate.UsersInFirstOccurrenceOrder | api/src/routes/plants.routes.js:29-40 | user records come in the order in which their ids first occur in the rows |
| Aggregate.UserRecord | api/src/routes/plants.routes.js:30-51 | a user record takes name and email from the user's first row and lists the distinct plant ids of the user's rows in first-occurrence order |
| Aggregate.PlantRecord | api/src/routes/plants.routes.js:42-61 | a plant record takes its name from that plant's first row of the user and holds exactly the history of those rows whose `historial_id` is truthy, in row order |
| Aggregate.EntriesAreHistoryRows | api/src/routes/plants.routes.js:53-61 | a history entry is kept exactly when some row carries it with a truthy `historial_id` |
| Aggregate.UserWithoutPlantsGetsNullPlant | api/src/routes/plants.routes.js:42-51 | a user whose rows all have null plant and history columns gets exactly one plant record, with null id, null name and no history |
| Aggregate.HistoryCountMatchesRows | api/src/routes/plants.routes.js:53-61 | the response holds as many history entries in total as there are rows with a truthy `historial_id` |
| Queries.QueryPlantas | api/src/routes/plants.routes.js:11-20 | the `/plantas` join returns no row exactly when there is no user |
| Queries.JoinUsersOnly | api/src/routes/plants.routes.js:11-20 | every row of the `/plantas` join belongs to a registered user |
| Queries.JoinUsersEvery | api/src/routes/plants.routes.js:11-20 | the outer join gives every registered user at least one row |
| PlantRoutes.Plantas | api/src/routes/plants.routes.js:22-65 | 404 exactly when the query returns no row; otherwise 200 with the reference grouping of the rows |
| PlantRoutes.GetPlantas | api/src/routes/plants.routes.js:8-65 | `GET /plantas` leaves the tables unchanged and answers 404 exactly when there is no user |
| PlantRoutes.PlantasListsEveryUserOnce | api/src/routes/plants.routes.js:11-40 | every registered user has a record in `GET /plantas`, and no two records share a user id |
| PlantRoutes.PlantasListsOnlyUsers | api/src/routes/plants.routes.js:11-40 | every record of `GET /plantas` belongs to a registered user |
| Queries.QueryPlant | api/src/routes/plants.routes.js:83-92 | the plant query returns no row exactly when no plant has the id; every row carries that id and the name of a plant stored under it |
| Queries.QueryPlantOnly | api/src/routes/plants.routes.js:83-92 | every row of the plant query with a non-null history shows a history row of that plant, joined with its service |
| Queries.QueryPlantEvery | api/src/routes/plants.routes.js:83-92 | when the plant exists, every history row of it appears in some row of the plant query |
| Queries.JoinHistoriesExact | api/src/routes/plants.routes.js:88-89 | with unique catalog ids and every history naming a catalog service, the history-to-service join pairs each history row with its one service, one row per history row |
| PlantDetail.ShowPlant | api/src/routes/plants.routes.js:95-118 | no plant object exactly when there is no row; otherwise the id and name of the first row, and an entry exactly for each row whose `historial_id` is not null, the list being empty exactly when no row has one |
| PlantDetail.ShowPlantInRowOrder | api/src/routes/plants.routes.js:101-109 | the history list has one entry per row whose `historial_id` is not null, in row order: entry `i` is the history of the `i`-th such row, the positions strictly increase and cover every such row |
| PlantDetail.NonNullHistoriesInRowOrder | api/src/routes/plants.routes.js:101-109 | the filter of rows with a non-null `historial_id` picks each such row once, in row order, at strictly increasing positions that cover all of them |
| PlantRoutes.GetPlant | api/src/routes/plants.routes.js:78-118 | `GET /plants/:id` leaves the tables unchanged, answers 404 exactly when no plant has the id, and otherwise 200 with that id and the name of a plant stored under it |
| PlantRoutes.GetPlantShowsOnlyItsHistory | api/src/routes/plants.routes.js:83-109 | each history entry of `GET /plants/:id` shows a history row of that plant |
| PlantRoutes.GetPlantShowsAllItsHistory | api/src/routes/plants.routes.js:83-109 | every history row of the plant is shown among the entries of `GET /plants/:id` |
| PlantRoutes.GetPlantExact | api/src/routes/plants.routes.js:83-118 | with unique plant and catalog ids and every history naming a catalog service, the entries correspond one for one, in table order, to the plant's history rows |
| PlantRoutes.GetPlantOwnName | api/src/routes/plants.routes.js:100-115 | a plant whose id no other plant shares is shown under its own name |
| PlantRoutes.GetPlantNoHistory | api/src/routes/plants.routes.js:99-117 | a plant no history row refers to is shown with an empty history, not with a null entry |
| PlantRoutes.CreatePlant | api/src/routes/plants.routes.js:172-202 | 400 with no change exactly when `name` or `usuario_id` is falsy; otherwise 201 with the new row, which is appended to `plantas` with the generated id while the other tables stay as they were |
| PlantRoutes.CreateThenGet | api/src/routes/plants.routes.js:184-196 | a plant created under a fresh id is then shown by `GET /plants/:id` under the given name with an empty history |
| PlantRoutes.CreateThenDelete | api/src/routes/plants.routes.js:203-228 | deleting a plant just created under a fresh id answers 200 and restores the tables exactly |
| PlantRoutes.DeletePlant | api/src/routes/plants.routes.js:203-234 | 400 exactly for an empty id, 404 exactly when no plant has it, and neither changes anything; otherwise 200, the plant rows without that id are kept, and the other tables (history included) stay as they were |
| Tables.WithoutPlant | api/src/routes/plants.routes.js:225 | deleting by id keeps exactly the plant rows whose id differs, and never adds rows |
| PlantRoutes.DeleteRemovesOneRow | api/src/routes/plants.routes.js:224-225 | with unique plant ids, a successful delete removes exactly the one row with the id and keeps the rest in order |
| PlantRoutes.DeleteTwice | api/src/routes/plants.routes.js:214-222 | deleting the same plant a second time answers 404 |
| Tables.CatalogHits | api/src/routes/plants.routes.js:260-264 | the ids found are exactly the requested ids that are in the catalog, and there are no more of them than catalog rows |
| PlantRoutes.HitsMatchRequest | api/src/routes/plants.routes.js:259-271 | with unique catalog ids, the number of ids found equals the number requested exactly when every requested id is in the catalog and none is requested twice |
| PlantRoutes.AddServices | api/src/routes/plants.routes.js:235-297 | 400 for a falsy plant id or a missing or empty id list, 404 for an unknown plant, 400 listing the ids found when their number differs from the number requested, none of which writes; otherwise 201 and the tables with one new history row per requested id appended in request order, the k-th with the k-th generated id and all with the same date |
| PlantRoutes.AddServicesAcceptsExactly | api/src/routes/plants.routes.js:240-283 | with unique catalog ids, a batch is recorded exactly when the request is well formed, the plant exists, every requested service is in the catalog and none is named twice |
| PlantRoutes.UnknownServiceRejected | api/src/routes/plants.routes.js:259-271 | a request naming one service outside the catalog is refused with 400 and writes nothing, whatever the other ids |
| PlantRoutes.DuplicateServiceIdRejected | api/src/routes/plants.routes.js:259-271 | a request naming the same service twice is refused with 400 and writes nothing |
| PlantRoutes.AddServicesKeepsHistoriesInCatalog | api/src/routes/plants.routes.js:259-283 | if every history row names a catalog service before the request, it does after it too |
| PlantRoutes.AddServicesThenGet | api/src/routes/plants.routes.js:273-283 | after a successful batch, `GET /plants/:id` answers 200 and shows every new row, with its generated id, its service and the batch's date |
| PlantRoutes.AddServicesThenGetExactly | api/src/routes/plants.routes.js:273-283 | for a plant without history, after a successful batch `GET /plants/:id` shows exactly the new rows, one per requested service, in request order |
| Tables.FirstWhere | api/src/routes/users.routes.js:90-99 | the lookup of users by email or by id finds nothing exactly when no user holds the value in that column, and otherwise the first user who does, the one the routes read |
| UserRoutes.CreateUser | api/src/routes/users.routes.js:32-76 | 400 with no change exactly when a field is falsy or the email is taken; otherwise 201 echoing the stored row, which is appended with the generated id and the hash of the password while the other tables stay as they were |
| UserRoutes.CreateUserKeepsEmailsUnique | api/src/routes/users.routes.js:43-64 | registration keeps emails unique |
| UserRoutes.DuplicateRegistrationRejected | api/src/routes/users.routes.js:43-52 | registering again under an email just registered is refused with 400 and changes nothing |
| UserRoutes.Login | api/src/routes/users.routes.js:77-128 | login never writes; it answers 400 exactly when a field is falsy or no user has the email, 401 exactly when the password does not check against the first such user's stored hash, and otherwise 200 with a token for that user, signed with `"secreto"` and valid for 3600 seconds |
| UserRoutes.RegisterThenLogin | api/src/routes/users.routes.js:89-117 | a user who just registered logs in with the same email and password, provided the password checks against its own hash, and the token carries the new id, email and name |
| UserRoutes.LoginIdentifiesUser | api/src/routes/users.routes.js:89-117 | with unique emails, a successful login's token is for the one user with the email |
| UserRoutes.GetUser | api/src/routes/users.routes.js:129-148 | `GET /users/get/:id` never writes, answers 404 exactly when no user has the id, and otherwise 200 with the id, name and email of the first user with it, without the password |
| UserRoutes.RegisterThenGetUser | api/src/routes/users.routes.js:133-143 | a user registered under a fresh id is then found under it, with the given name and email |
| Api.Handle | api/src/index.js:16-18 | across all modelled routes, queries never write, no refused request writes, no route writes the service catalog, and every answer is 200, 201, 400, 401 or 404 |
| Api.CreatePlantKeepsConsistent | api/src/routes/plants.routes.js:184-190 | adding a plant under an id no plant has keeps the tables consistent (unique keys and emails, every history row naming a catalog service) |
| Api.DeletePlantKeepsConsistent | api/src/routes/plants.routes.js:224-225 | deleting a plant keeps the tables consistent |
| Api.AddServicesKeepsConsistent | api/src/routes/plants.routes.js:273-283 | a batch whose generated ids are new and pairwise different keeps the tables consistent |
| PlantRoutes.NewHistories | api/src/routes/plants.routes.js:275-281 | the batch has one row per requested service, in request order, each for the given plant and all with the same date |
| Api.BatchKeepsHistoryIdsUnique | api/src/routes/plants.routes.js:275-281 | appending history rows that carry new, pairwise different generated ids keeps history ids unique |
| Api.CreateUserKeepsConsistent | api/src/routes/users.routes.js:55-64 | registering a user under an id no user has keeps the tables consistent |
| Api.HandleKeepsConsistent | api/src/index.js:16-18 | every modelled route keeps the tables consistent, provided the generated ids are new |

## Left out

- The 500 answers of every `catch` block. A database error is not modelled; the tables are always reachable.
- The connection pool and the SQL text. The queries are modelled by their results over in-memory tables, which return rows in table order. Postgres does not promise that order.
- Database constraints (primary keys, foreign keys, unique email, cascades). The schema is not part of this model. Unique keys are hypotheses of the lemmas that need them, and `Api.Consistent` is an invariant the routes are proved to keep.
- The randomness of `uuidv4`. That generated ids are new is a hypothesis (`Api.Fresh`), not a guarantee.
- bcrypt salting and cost. `hash` is a deterministic parameter and `verify` an arbitrary one.
- The JWT signature, the `iat` claim and the encoding of the token. The model keeps the claims, the secret and the lifetime.
- The clock. `now` is a parameter, so every row of one batch shares one date.
- The concurrency of the parallel history inserts, and check-then-act races between requests. A batch is appended in request order as one step, and requests are handled one at a time.
- JavaScript typing of the body. `servicioIds` is an array of integers or absent (not an array). Elements that are not integers and ids that Postgres would fail to cast are not modelled.
- The text of the messages in error answers.
- Columns the routes never write, such as the `created_at` and `updated_at` of `usuarios` (api/src/routes/users.routes.js:14 selects them). `RETURNING *` sends every column in the 201 answers of `POST /users/create` and `POST /plants/create`, but `Tables.User` and `Tables.Plant` hold only the columns the routes write, so the modelled answers carry only those.
- `GET /users`, `GET /plants`, `GET /plants/user/:userId`, the services routes, the server start-up and the Android app. They are outside the modelled core.
