# Token settlement of a skill-exchange site

This project is a Dafny model of the core of a PHP skill-exchange site. On the site, users teach lessons ("cours") and ask for one-to-one exchanges ("partage"). Joining either one moves tokens between accounts:

- **Joining a lesson.** The user pays 25 tokens and the lesson's host receives 20.
- **Joining an exchange.** The joining user and the exchange's requester each receive 40 tokens.

The model covers:

- **The ledger** (`UserModel`). It holds the balances and refuses any update that would make a balance negative.
- **Enrolment** (`CoursModel`). Capacity check, duplicate check, `attend_id = MAX + 1`, a tolerant unregister, the count/full/registered queries, a cascading delete and a transaction-aware upsert.
- **Session and exchange persistence** (`SessionModel`, `PartageModel`).
- **The two settlement coordinators** (`CoursController.JoinCours`, `PartageController.JoinPartage`). Also the thin register, unregister, accept and destroy actions.
- **The find-or-create tables** (`SkillModel`, `LocationModel`).
- **The pure helpers.** The banners of the sessions page (`SessionController`) and the `asset` and `traduction` template functions (`TwigExtensions`).
- **The three entities** `Session`, `Cours` and `Partage`. They are classes with setters.

The database is an in-memory value `Store.Tables` held by a `Store.Connection` object. The object stands for the PDO connection of one request:

- **`data`.** What the connection sees, its own uncommitted writes included.
- **`inTransaction`.** Whether a transaction is open.
- **`snapshot`.** The state a rollback returns to. A rollback restores every row but keeps the AUTO_INCREMENT counters where they are.
- **`failing`.** The set of tables whose writes raise a `PDOException`. The connection is configured with `ERRMODE_EXCEPTION`, so every failed write throws; the model covers every combination of failing tables.

Modules and constants:

- Each PHP class becomes one module.
- `Php` holds the three PHP comparisons the code relies on:
  - truthiness of an id (null and 0 are false);
  - truthiness of a query-string value ("" and "0" are false);
  - `count >= max` with a NULL `max`, which is always true.
- `Http` holds the outcomes: JSON-like responses and the redirects with their query codes.
- The constants are those of the source: the 25/20 price of a lesson, the 40/40 reward of an exchange, and the French messages.

Redirects:

- A redirect to the login page, or to `/sessions?success=…` or `/sessions?error=…`, is an `Http.Redirect` value.
- A request that dies on an uncaught `TypeError` is `Redirect.Fatal`. This happens when `updateBalance` receives the NULL host of a lesson or the NULL requester of an exchange, because the `catch (\Exception)` does not catch it. The open transaction is then discarded.

Quirks kept as the code has them:

- A host may join their own lesson and loses 5 tokens net.
- A requester may join their own exchange and gains 80 tokens.
- An exchange accepted by user id 0 still counts as open.
- `CoursModel::delete`, `PartageModel::delete` and both join actions call `beginTransaction` unconditionally. Inside a caller's transaction that call throws, and the catch rolls back the caller's transaction.

## Model

| member | source | states |
|---|---|---|
| Store.Restored | app/Models/CoursModel.php:90-97 | a rollback gives back every row of the snapshot; the AUTO_INCREMENT counters keep their current values, and when they were not moved the result is the snapshot itself |
| Store.Connection.constructor | util/Container.php:64-72 | a new connection sees the given consistent tables, has no open transaction and raises on writes to exactly the given tables |
| Store.Connection.BeginTransaction | app/Models/CoursModel.php:35-39 | opening a transaction records the current tables as the rollback target and changes no data |
| Store.Connection.Commit | app/Models/CoursModel.php:83-86 | commit closes the transaction and keeps every write made in it |
| Store.Connection.RollBack | app/Models/CoursModel.php:91-94 | rollback closes the transaction and returns the rows to the snapshot, counters kept |
| UserModel.Credit | app/Models/UserModel.php:117-123 | the UPDATE adds exactly the amount to that user's balance, changes no other balance and no other table, and is a no-op for an unknown user or a zero amount |
| UserModel.GetBalance | app/Models/UserModel.php:86-102 | the stored balance, or 0 when no such user exists |
| UserModel.UpdateBalance | app/Models/UserModel.php:107-128 | succeeds exactly when balance + amount >= 0 and the write is accepted; on success the balance moves by the amount, otherwise nothing changes; never touches the transaction |
| UserModel.HasEnoughTokens | app/Models/UserModel.php:133-137 | holds exactly when the balance getBalance reads is at least the required amount |
| UserModel.LedgerNeverNegative | app/Models/UserModel.php:111-123 | from non-negative balances, no sequence of updateBalance calls makes any balance negative |
| UserModel.StripQuotes | app/Models/UserModel.php:32-34 | a string that starts and ends with a single quote loses both (a lone quote becomes empty); any other string is unchanged |
| UserModel.StripQuotesRoundTrip | app/Models/UserModel.php:32-34 | wrapping a password in single quotes and stripping them gives the password back |
| SessionEntity.Session.constructor | app/Entity/Session.php:17-26 | each of the seven fields holds the argument given for it |
| SessionEntity.Session.Empty | app/Entity/Session.php:17-26 | a default session has every field null, so it is not yet persisted |
| SessionEntity.Session.SetSessionId | app/Entity/Session.php:62-64 | only the id changes, to the given value |
| SessionEntity.Session.SetStartTime | app/Entity/Session.php:66-68 | only the start time changes, to the given value |
| SessionEntity.Session.SetEndTime | app/Entity/Session.php:70-72 | only the end time changes, to the given value |
| SessionEntity.Session.SetDateSession | app/Entity/Session.php:74-76 | only the date changes, to the given value |
| SessionEntity.Session.SetDescription | app/Entity/Session.php:78-80 | only the description changes, to the given value |
| SessionEntity.Session.SetRateId | app/Entity/Session.php:82-84 | only the rate changes, to the given value |
| SessionEntity.Session.SetSkillTaughtId | app/Entity/Session.php:86-88 | only the taught skill changes, to the given value |
| CoursEntity.Cours.constructor | app/Entity/Cours.php:16-35 | the first seven arguments form the session part; location, host and capacity hold the last three |
| CoursEntity.Cours.Empty | app/Entity/Cours.php:16-35 | a default lesson has every field null |
| CoursEntity.Cours.SetLocationId | app/Entity/Cours.php:59-62 | only the location changes; the session part is untouched |
| CoursEntity.Cours.SetLessonHostId | app/Entity/Cours.php:64-67 | only the host changes; the session part is untouched |
| CoursEntity.Cours.SetMaxAttendees | app/Entity/Cours.php:69-72 | only the capacity changes; the session part is untouched |
| PartageEntity.Partage.constructor | app/Entity/Partage.php:16-35 | the first seven arguments form the session part; requested skill, requester and accepter hold the last three |
| PartageEntity.Partage.Empty | app/Entity/Partage.php:16-35 | a default exchange has every field null, so it is unaccepted |
| PartageEntity.Partage.SetSkillRequestedId | app/Entity/Partage.php:59-62 | only the requested skill changes; the session part is untouched |
| PartageEntity.Partage.SetExchangeRequesterId | app/Entity/Partage.php:64-67 | only the requester changes; the session part is untouched |
| PartageEntity.Partage.SetExchangeAccepterId | app/Entity/Partage.php:69-72 | the accepter is overwritten unconditionally and nothing else changes |
| SessionModel.SaveThenGetById | app/Models/SessionModel.php:62-113 | for an entity whose id is null, 0 or that of an existing session: an insert takes an id no session has, and after the save the row under the id left on the entity holds exactly the saved fields while every other session is unchanged |
| SessionModel.StaleIdSaveChangesNothing | app/Models/SessionModel.php:62-71 | a non-zero id naming no session makes the save an UPDATE that matches no row: the tables are unchanged and the id is still not found |
| SessionModel.Save | app/Models/SessionModel.php:57-122 | a truthy id is UPDATEd and kept, any other is INSERTed and the entity receives the new id; a rejected write returns false, writes nothing and assigns no id |
| SessionModel.GetById | app/Models/SessionModel.php:127-151 | null exactly when no row has the id; otherwise a new entity with that id and the row's six other fields |
| SessionModel.DeleteSession | app/Models/SessionModel.php:159-163 | the row with the id is gone and every other session row is unchanged; a null id deletes nothing |
| SessionModel.Delete | app/Models/SessionModel.php:156-176 | succeeds exactly when the write is accepted, removing only that session row |
| SessionModel.AttendableUserSessions | app/Models/SessionModel.php:25-48 | nothing when nobody is logged in; otherwise lessons are hosted then attended, exchanges requested then accepted, in that order |
| CoursModel.CountFor | app/Models/CoursModel.php:385-398 | the number of attend rows of the lesson: zero exactly when no row names it, never more than the rows |
| CoursModel.AttendeesOf | app/Models/CoursModel.php:284-305 | the join returns only existing users registered to the lesson, never more than its attend rows |
| CoursModel.MaxAttendId | app/Models/CoursModel.php:339-341 | `MAX(attend_id)`: none on an empty table, otherwise an id present in the table and at least every id |
| CoursModel.NewAttendId | app/Models/CoursModel.php:339-341 | the new attend id exceeds every existing id, and is 1 on an empty table |
| CoursModel.Without | app/Models/CoursModel.php:369-375 | a DELETE never adds rows |
| CoursModel.WithoutMembers | app/Models/CoursModel.php:369-375 | a DELETE keeps exactly the rows its condition does not match |
| CoursModel.DeleteCourse | app/Models/CoursModel.php:151-165 | the cascade removes the lesson's attend rows, its lesson row and its session row, and nothing else |
| CoursModel.EnrollRespectsCapacity | app/Models/CoursModel.php:320-325 | an accepted enrolment has a capacity and leaves the attendee count within it |
| CoursModel.EnrollRegistersOnce | app/Models/CoursModel.php:328-351 | after an accepted enrolment the (lesson, user) pair appears exactly once |
| CoursModel.EnrollKeepsIdsUnique | app/Models/CoursModel.php:339-351 | MAX+1 keeps attend ids unique |
| CoursModel.CapacityOneScenario | app/Models/CoursModel.php:320-336 | once a lesson of capacity one has an attendee, nobody else can enrol |
| CoursModel.WithoutKeepsIdsUnique | app/Models/CoursModel.php:369-375 | deleting attend rows keeps their ids unique |
| CoursModel.WithoutIdempotent | app/Models/CoursModel.php:369-375 | repeating the same DELETE changes nothing more |
| CoursModel.RemovePairIdempotent | app/Models/CoursModel.php:369-375 | after removeAttendee the pair is not registered, and repeating it changes nothing |
| CoursModel.RemoveLessonKeepsOthers | app/Models/CoursModel.php:151-154 | deleting one lesson's attend rows leaves every other lesson's count unchanged |
| CoursModel.Save | app/Models/CoursModel.php:29-98 | opens, commits or rolls back only a transaction it started; succeeds exactly when both writes are accepted, leaving the session saved and the lesson row upserted under its id; on failure either the caller's transaction holds what was written or the rows are as before |
| CoursModel.GetById | app/Models/CoursModel.php:103-137 | null exactly when the session or the lesson row is missing; otherwise a new lesson with the stored fields |
| CoursModel.Delete | app/Models/CoursModel.php:142-176 | inside a caller's transaction it fails and rolls that transaction back; otherwise it succeeds exactly when the three deletes are accepted, and then applies the cascade, or changes nothing |
| CoursModel.GetAttendees | app/Models/CoursModel.php:284-305 | the fetch loop collects exactly the attendees the join returns |
| CoursModel.IsUserRegistered | app/Models/CoursModel.php:576-589 | holds exactly when an attend row has this lesson and user |
| CoursModel.CountAttendees | app/Models/CoursModel.php:385-398 | the lesson's number of attend rows |
| CoursModel.IsFull | app/Models/CoursModel.php:403-417 | false for an unknown lesson; otherwise count >= capacity, true for a NULL capacity |
| CoursModel.AddAttendee | app/Models/CoursModel.php:310-357 | succeeds exactly when the lesson exists, is not full, the user is not yet registered and the write is accepted; then exactly one row is appended, otherwise nothing changes |
| CoursModel.RemoveAttendee | app/Models/CoursModel.php:369-380 | succeeds whenever the write is accepted, even when no row matched, and deletes only that pair's rows |
| PartageModel.SaveThenGetById | app/Models/PartageModel.php:53-83 | for an entity whose id is null, 0 or that of an existing session: after the save the exchange is found under the entity's id with the saved session fields and the saved skill, requester and accepter; other exchanges are unchanged |
| PartageModel.DeletePartage | app/Models/PartageModel.php:151-162 | the exchange row and the session row with the id are gone; every other row is unchanged |
| PartageModel.Save | app/Models/PartageModel.php:29-100 | opens, commits or rolls back only a transaction it started; succeeds exactly when both writes are accepted, and then the session is saved and the exchange row upserted under its id |
| PartageModel.GetById | app/Models/PartageModel.php:105-142 | null exactly when the session or the exchange row is missing; otherwise a new exchange with the stored fields |
| PartageModel.Delete | app/Models/PartageModel.php:147-176 | inside a caller's transaction it fails and rolls that transaction back; otherwise it succeeds exactly when both deletes are accepted, and then removes both rows, or changes nothing |
| CoursController.SettleBalances | app/Controllers/CoursController.php:446-453 | a settled join takes exactly 25 tokens from the user and gives 20 to the host; a host joining their own lesson loses 5; no other balance moves |
| CoursController.SettleRegistersOnce | app/Controllers/CoursController.php:441-453 | a settled join registers the user exactly once, raises the lesson's attendee count by exactly one, and touches only `attend` and the balances |
| CoursController.SettleKeepsBalancesNonNegative | app/Controllers/CoursController.php:427-453 | with the 25-token pre-check passed, a settled join leaves every balance non-negative |
| CoursController.JoinCours | app/Controllers/CoursController.php:396-483 | login, course_not_found and not_enough_tokens change nothing; inside the transaction either all three writes commit (joined_course) or the rows are rolled back (cannot_join_course, or a fatal error for a lesson without host) |
| CoursController.Register | app/Controllers/CoursController.php:351-370 | success exactly when addAttendee succeeds, with its message and its effect |
| CoursController.Unregister | app/Controllers/CoursController.php:375-390 | success exactly when removeAttendee succeeds, with its message and its effect |
| CoursController.Destroy | app/Controllers/CoursController.php:315-346 | "not found" with no change for a missing lesson; inside an open transaction the delete error, with that transaction rolled back; otherwise the outcome and effect of CoursModel::delete |
| PartageController.RewardBalances | app/Controllers/PartageController.php:419-427 | a settled join gives 40 tokens to the joining user and 40 to the requester (80 when they are the same user), sets the accepter, and moves no other balance |
| PartageController.JoinedExchangeIsClosed | app/Controllers/PartageController.php:396-417 | after a settled join by a non-zero user id the exchange still exists but can no longer be joined or accepted |
| PartageController.ZeroAccepterStaysOpen | app/Controllers/PartageController.php:396 | the truthiness test lets an exchange accepted by user id 0 be joined again |
| PartageController.Accept | app/Controllers/PartageController.php:328-361 | "not found" and "already accepted" change nothing; otherwise the accepter is set and saved when both writes are accepted, and nothing changes when either is refused |
| PartageController.JoinPartage | app/Controllers/PartageController.php:367-457 | login, exchange_not_found and exchange_already_accepted change nothing; inside the transaction either the acceptance and both credits commit (joined_exchange) or the rows are rolled back (cannot_join_exchange, or a fatal error for an exchange without requester) |
| PartageController.Destroy | app/Controllers/PartageController.php:298-323 | "not found" with no change for a missing exchange; inside an open transaction the delete error, with that transaction rolled back; otherwise the outcome and effect of PartageModel::delete |
| SessionController.SuccessMessage | app/Controllers/SessionController.php:81-83 | no banner exactly when the success code is absent or falsy; the two join codes name the price and the reward, any other code reads "Création réussie" |
| SessionController.ErrorMessage | app/Controllers/SessionController.php:84-86 | no banner exactly when the error code is absent or falsy; dedicated texts for missing tokens and for an exchange already taken, a generic one otherwise |
| SessionController.JoinOutcomesShowOneBanner | app/Controllers/SessionController.php:81-86 | every redirect of the two join actions shows exactly one banner, with the text meant for it |
| SessionController.Show | app/Controllers/SessionController.php:97-114 | "Session non trouvée" for a missing session; otherwise success with the stored session |
| SessionController.Edit | app/Controllers/SessionController.php:165-182 | the same answer as show |
| SessionController.Update | app/Controllers/SessionController.php:187-221 | "not found" with no change for a missing session; otherwise the six fields from the request replace the row under the same id when the write is accepted, and nothing changes when it is refused |
| SessionController.Destroy | app/Controllers/SessionController.php:226-251 | "not found" with no change for a missing session; otherwise the session row is deleted exactly when the write is accepted |
| SkillModel.FindSkill | app/Models/SkillModel.php:30-53 | a skill equal on both name and category, or none exactly when no such row exists |
| SkillModel.FindOrCreate | app/Models/SkillModel.php:62-104 | afterwards a skill with that name and category exists under the returned id; an existing one is returned with no insert, otherwise one row is inserted with the next id |
| SkillModel.CreateIdempotent | app/Models/SkillModel.php:62-104 | creating the same skill twice gives the same id and at most one new row |
| SkillModel.InsertSkillKeepsIdsValid | app/Models/SkillModel.php:77-88 | the AUTO_INCREMENT insert keeps skill ids unique and below the counter |
| SkillModel.GetByNameAndCategory | app/Models/SkillModel.php:30-53 | answers the first row matching both name and category |
| SkillModel.Create | app/Models/SkillModel.php:62-104 | the find-or-create result when the insert is not needed or is accepted; false with no change otherwise |
| SkillModel.Bump | app/Models/SkillModel.php:170-173 | the skills with that id gain exactly one search; every other skill is unchanged |
| SkillModel.IncrementSearchCounter | app/Models/SkillModel.php:167-187 | succeeds exactly when the write is accepted, and then applies the bump |
| SkillModel.OfCategory | app/Models/SkillModel.php:143 | exactly the skills of that category |
| SkillModel.SortByName | app/Models/SkillModel.php:143 | `ORDER BY skill_name`: sorted by name and a permutation of its input |
| SkillModel.GetAllByCategory | app/Models/SkillModel.php:140-162 | exactly the skills of the category, each as often as stored, sorted by name |
| LocationModel.FindLocation | app/Models/LocationModel.php:37-46 | a location equal on address, zip code and city, or none exactly when no such row exists |
| LocationModel.FindOrCreate | app/Models/LocationModel.php:33-71 | afterwards the place exists under the returned id; an existing one is returned with no insert, otherwise one row is inserted with the next id |
| LocationModel.CreateIdempotent | app/Models/LocationModel.php:33-71 | creating the same place twice gives the same id and at most one new row |
| LocationModel.InsertLocationKeepsIdsValid | app/Models/LocationModel.php:55-63 | the AUTO_INCREMENT insert keeps location ids unique and below the counter |
| LocationModel.DistinctPlacesDistinctIds | app/Models/LocationModel.php:37-40 | places differing in address, zip code or city get different ids |
| LocationModel.Create | app/Models/LocationModel.php:33-71 | the find-or-create result when the insert is not needed or is accepted; false with no change otherwise |
| LocationModel.LocationById | app/Models/LocationModel.php:82-88 | a row with that id, or none exactly when no row has it |
| LocationModel.GetById | app/Models/LocationModel.php:79-93 | answers the row with that id, or nothing |
| LocationModel.DeleteLocationMembers | app/Models/LocationModel.php:121-124 | the DELETE keeps exactly the locations with another id |
| LocationModel.DeleteLocationKeepsIdsValid | app/Models/LocationModel.php:121-124 | deleting keeps location ids unique and below the counter |
| LocationModel.DeleteThenGetById | app/Models/LocationModel.php:79-93 | after delete the id is not found and every other id is found as before |
| LocationModel.Delete | app/Models/LocationModel.php:118-136 | succeeds exactly when the write is accepted, and then removes only the rows with that id |
| TwigExtensions.LTrimSlash | util/TwigExtensions.php:29 | `ltrim($p, '/')`: a suffix of p that does not start with '/', with only slashes removed before it |
| TwigExtensions.Asset | util/TwigExtensions.php:27-30 | starts with "/assets/" and what follows never starts with '/' |
| TwigExtensions.AssetIgnoresLeadingSlash | util/TwigExtensions.php:29 | a leading slash never changes the URL |
| TwigExtensions.AssetKeepsRelativePath | util/TwigExtensions.php:29 | a path without a leading slash is appended unchanged |
| TwigExtensions.PrimaryLanguage | util/TwigExtensions.php:38-39 | at most the first two characters of the header |
| TwigExtensions.Language | util/TwigExtensions.php:38-43 | always "fr" or "en", and "en" exactly when the header starts with "en" |
| TwigExtensions.Traduction | util/TwigExtensions.php:34-52 | the table's entry for the term in the chosen language when it has one, the term itself otherwise |
| TwigExtensions.FrenchIsTheFallback | util/TwigExtensions.php:41-43 | any header not starting with "en" translates as French |
| TwigExtensions.OnlyThePrefixMatters | util/TwigExtensions.php:38-39 | only the first two characters of the header affect the translation |

## Left out

- **Listing queries.** `getLessonDispo`, `getByAttendeeIdNotExpired`, `getByHostIdNotExpired`, `getDemandeDePartage`, `getByRequesterIdNotExpired` and `getByAccepterIdNotExpired` are multi-table joins over `NOW()` and date strings. `SessionModel.AttendableUserSessions` takes their results as parameters.
- **Logging.** Logger and `error_log` calls have no effect on the outcome.
- **HTTP and templates.**
  - `header()`/`exit`, Twig rendering and the superglobals are not modelled.
  - Redirects and responses are `Http` values.
  - The current user and the request are parameters.
  - The translation table and the Accept-Language header are parameters.
- **Authentication and wiring.** Not modelled: the login controller, `UserModel::create`, the authentication middleware, the profile controller, the dependency container, routing, the database test page and `CategorieModel`.
- **The entity's own persistence methods.** `Session::save`, `getById`, `delete` and `getAll` duplicate `SessionModel`.
- **Broken or dead controller methods.**
  - `index`, `userHosted`, `userRequests` and `userAccepts` call model methods that do not exist.
  - The controllers' `update` methods use an undefined `$this->pdo`.
  - `SessionController::store`/`create` and `SessionModel::getAll` are not part of the settlement core.
- **`LocationModel::getAll`.** It exhausts its result set before returning it.
- **Read faults.** Only writes fail. A `PDOException` on a SELECT is not modelled. The model methods that catch one answer null, false, 0 or an empty list. `UserModel::getBalance` and `UserModel::findById` log it and rethrow it.
- CoursController.JoinCours: a read fault in the pre-check `hasEnoughTokens` happens before the `try` opens. It ends the request with an uncaught exception, and that outcome is not modelled. Inside the `try`, a read fault in `updateBalance` is caught like a refusal and gives `cannot_join_course`, which the contract covers as a refused update.
- UserModel.HasEnoughTokens: always answers. The `PDOException` that `getBalance` rethrows on a failed read is not modelled.
- **Foreign keys and cascades in the schema.** The schema is not part of this model. Deletes remove exactly the rows the statements name.
- **Concurrency.** One request is modelled at a time. Races on the capacity check and on `MAX(attend_id) + 1` between requests are not modelled.
- **Column types and collation.** Ids and balances are unbounded integers. Strings compare by code point, not by the database collation. The dates and times of a session are opaque optional strings. The ids that `lastInsertId()` leaves on entities and returns from `SkillModel::create` and `LocationModel::create` are strings in PHP. The model uses integers, which matches how the code then compares and binds them.
- UserModel.UpdateBalance: a `PDOException` rethrown by the UPDATE is reported as `false`, the same result as a refused update, because the join actions treat both alike.
- SkillModel.SortByName: `ORDER BY skill_name` is modelled as code-point order. Rows with equal names may come back in a different order than the database's.
- CoursModel.GetAttendees: each attendee is its user id. The full `app_user` row of the source is not modelled.
- PHP loose comparisons are modelled only in the cases the code meets: an id's truthiness, a query value's truthiness, and `count >= max_attendees`.
