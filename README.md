# Project platform routes: a Dafny model

This project models the two route modules at the core of a small project-sharing
server:

- **Authentication** (`routes/auth.js`). A process-wide, in-memory list of users.
  `POST /register` validates email, password and name. It rejects an email that is
  already in the list. Otherwise it appends a user whose id is the list's length
  plus one, with the password stored as a bcrypt digest. `POST /login` validates
  its two fields and looks the email up with `find`. It compares the password with
  the stored digest and answers an unknown email and a wrong password with the
  same error. Both handlers return a token built from `(id, email)` and a user
  object without the password.
- **Projects** (`routes/projects.js`). Operations on the `projects` table, joined
  with `users` for the author's name:
  - `GET /` lists every project whose author exists, newest first.
  - `GET /:id` reads one project.
  - `POST /` validates the request, then inserts a row owned by the caller.
  - `PUT /:id` checks existence, then ownership, then that the fields are
    present. Only then does it replace the title and description.
  - `DELETE /:id` checks existence, then ownership, then removes the row.

Modules:

- `Common` (common.dfy): `Option`, a request-body `Field` (absent or a string) and
  `Truthy`, which is JavaScript's `!field` test.
- `Crypto` (crypto.dfy): the password hash as a function of password, cost and
  salt, and `Matches`, the library's comparison. Only one fact about them is used:
  a digest matches the password it was made from. The body of `Checksum` is a
  stand-in, not bcrypt. The random salt is a parameter.
- `Auth` (auth.dfy): the class `Registry` holds `users: seq<User>`. `FindByEmail`
  is the front-to-back scan that `find` performs. `Register` and `Login` are
  methods proved equal to the specification functions `RegisterStep` and
  `LoginOutcome`. The lemmas relating several calls are stated about those
  functions.
- `Projects` (projects.dfy): the class `Store` holds `projects: map<int, Project>`
  and the AUTOINCREMENT counter `nextId`. It also holds the `users` table as an id
  to username map, which no handler writes. The reads `List` and `Get` are
  functions. `Create`, `Update` and `Delete` are methods whose postconditions give
  the outcome and the whole new table for every branch. `Get`, `Create`, `Update`
  and `Delete` answer with the datatype `Outcome` (`Ok | BadRequest | NotFound |
  Forbidden`), which carries the source's messages. `List` cannot fail in the model
  and returns the rows themselves.

The caller's id (`req.user.id`, set by the token middleware) is an input to the
project methods. The time of `CURRENT_TIMESTAMP` is an input to `Create` (`now`).
`created_at` is an integer that orders like the engine's timestamp text.

The model follows the code as written, including where it differs from what the
schema declares:

- Registration checks only the email for uniqueness against the in-memory list.
  The schema declares `username` unique as well (db/database.js:13).
- The project routes have no file upload. The schema declares a `project_files`
  table (db/database.js:43-51), which no route shown writes.
- Delete removes only the `projects` row and does nothing to `project_files`.
- Update checks only that the title and description are present
  (routes/projects.js:111-115). Create also checks their lengths
  (routes/projects.js:63-69).

The authentication routes never write the `users` table that the project routes
join with. So in the code as written, a project's author name comes from rows that
these routes do not create. The model keeps that table as a separate,
unchanging map.

## Model

| member | source | states |
|---|---|---|
| `Crypto.HashMatches` | routes/auth.js:52 | a digest made from a password (with any cost and salt) matches that password under the comparison |
| `Auth.IndexOfEmail` | routes/auth.js:47 | the result is the index of the FIRST user with that email (earlier users have other emails), or none when no user has it |
| `Auth.Registry.FindByEmail` | routes/auth.js:18 | the loop scanning the list returns none exactly when no user has the email, and otherwise the first user with it |
| `Auth.RegisterStep` | routes/auth.js:14-25 | missing or empty email/password/name: BadRequest, list unchanged; all present and the email already present: Conflict, list unchanged; all present and the email new: success (BadRequest exactly on a missing field, Conflict exactly on a known email), and exactly one user is appended with id old length + 1, the given name and email and the password's digest (not the plaintext), earlier users unchanged, and the token and public user carry that id and email; the public user has no password field (routes/auth.js:32) |
| `Auth.Registry.constructor` | routes/auth.js:8 | the list starts empty and well-formed |
| `Auth.Registry.Register` | routes/auth.js:10-37 | the answer and the new list are those of `RegisterStep` on the old list, and the list stays well-formed |
| `Auth.LoginOutcome` | routes/auth.js:43-62 | BadRequest exactly when email or password is missing or empty; success exactly when the first user with that email exists and the password matches their digest, returning that user's token claims and public fields, with no password field (routes/auth.js:62); every other case is Unauthorized with the one message "Invalid email or password", for an unknown email and a wrong password alike |
| `Auth.Registry.Login` | routes/auth.js:39-67 | the answer is `LoginOutcome` of the current list; the method has no modifies clause, so login never changes the list |
| `Auth.RegisterKeepsWellFormed` | routes/auth.js:18-25 | registration preserves the invariant: the user at index i has id i + 1 and emails are pairwise distinct |
| `Auth.RegisterTwiceConflicts` | routes/auth.js:18-21 | after a successful registration, registering the same email again with any non-empty password and name is a Conflict and leaves the list unchanged |
| `Auth.LoginAfterRegister` | routes/auth.js:47-62 | after a successful registration, login with the same email and password succeeds with a token whose id is the new user's id |
| `Auth.LoginSucceedsIff` | routes/auth.js:47-57 | on a well-formed list, login succeeds exactly when some user has the email and the password matches that user's digest |
| `Projects.Insert` | routes/projects.js:19 | inserting a row into an ordered list of rows with other ids gives an ordered list holding exactly the old rows plus the new one |
| `Projects.Sort` | routes/projects.js:19 | rows with distinct ids come out ordered by created_at descending, ties by ascending id, as a permutation of the input |
| `Projects.Store.constructor` | db/database.js:21-29 | on a new database file the table starts empty with the id counter at 1; the file persists across restarts (db/database.js:8, `CREATE TABLE IF NOT EXISTS`), so the methods and the `List`/`Get` lemmas are stated for any store satisfying `Valid()`, not only a new one |
| `Projects.Store.Rows` | routes/projects.js:17-18 | the inner-join rows with ids in a range, in strictly ascending id order, holding exactly the projects in that range whose author exists in users |
| `Projects.Store.List` | routes/projects.js:9-20 | GET / returns exactly the projects whose author exists in users (inner join), each with its author's name, ordered by created_at descending |
| `Projects.Store.Get` | routes/projects.js:31-46 | GET /:id succeeds exactly when the project exists and its author exists in users, returning that joined row; otherwise NotFound("Project not found") |
| `Projects.Store.Create` | routes/projects.js:57-90 | a missing or empty title or description gives the "required" error before any length check; a title shorter than 3 gives the title error even when the description is also short; otherwise a description shorter than 10 gives the description error; each error leaves the table and counter unchanged. On success exactly one row is added under the fresh id `nextId`, owned by the caller, with the given title and description; all other rows are unchanged and the counter advances. The answer is the joined row, or none when the caller is not in users |
| `Projects.Store.Update` | routes/projects.js:99-132 | an absent id gives NotFound; otherwise a caller other than the owner gives Forbidden; otherwise a missing field gives BadRequest; each leaves the table unchanged. An owner with both fields present replaces only that row's title and description, with no length minimum; author, created_at and all other rows are unchanged |
| `Projects.Store.Delete` | routes/projects.js:141-154 | an absent id gives NotFound; otherwise a caller other than the owner gives Forbidden; both leave the table unchanged. The owner's delete removes exactly that row, leaves every other row and the counter unchanged, and a later GET of that id is NotFound |
| `Projects.GetAgreesWithList` | routes/projects.js:9-46 | GET /:id succeeds on an id exactly when GET / lists a row with that id, and returns the same row |
| `Projects.ListHasDistinctIds` | routes/projects.js:9-20 | GET / never lists a project twice |
| `Projects.ListNewestFirst` | routes/projects.js:19 | the created_at values of GET / are non-increasing |
| `Projects.HeadPrecedes` | routes/projects.js:19 | the first row of an ordered list comes before every other row in it |
| `Projects.OrderedUnique` | routes/projects.js:19 | two ordered lists holding the same rows are equal |
| `Projects.ListIsDetermined` | routes/projects.js:9-20 | any ordered list of exactly the joined rows equals what GET / returns |

## Left out

- Password hashing: the adaptive hash and its comparison are a foreign library.
  `Crypto.Hash` is a deterministic stand-in that depends on password, cost and salt.
  The model relies only on `Crypto.HashMatches`. The library's 72-byte input limit
  and its salt generation are not modelled; the salt is a parameter.
- Token signing, the signing secret and the 7-day expiry: a token is modelled by
  its claims `(id, email)` only. Checking a token is the middleware's job, and the
  middleware is not part of this model. The caller's id is a parameter.
- Express routing, status codes, response envelopes and success messages: each
  handler's answer is a datatype. The `try/catch` paths that answer 500 and log are
  not modelled.
- The database engine: its `UNIQUE` and foreign-key enforcement is not modelled.
  An insert or delete that the engine would refuse for a foreign-key violation is
  modelled as succeeding.
- Request bodies are modelled as absent or string fields. Values of other JSON types
  (numbers, arrays, objects), which the handlers would truthiness-test and measure
  differently, are not modelled.
- String lengths count characters, not JavaScript's UTF-16 code units.
- `Projects.Store.List`: when rows share a `created_at`, the engine's order is not
  specified. The model fixes ascending id for ties. `created_at` defaults to
  `CURRENT_TIMESTAMP` (db/database.js:26), which has one-second resolution, so ties
  are common. For projects created in the same second, the model lists the older
  project (lower id) first, which is the reverse of newest-first.
- Concurrency and asynchrony of the handlers: each call runs to completion alone.
  In the source, the email check (routes/auth.js:18) and the append (:25) are
  separated by `await bcrypt.hash` (:23). So two concurrent registrations of one
  email can both pass the check, and the list can then hold that email twice. The
  distinct-email half of `Auth.WellFormed`, and with it
  `Auth.RegisterKeepsWellFormed` and `Auth.LoginSucceedsIff`, hold only when
  registrations do not overlap. Ids stay equal to index + 1 even then, because
  `users.length` is read after the await.
- Path ids: `req.params.id` is a string bound into `WHERE id = ?`
  (routes/projects.js:42, 102, 143). The model takes the id as an integer. A
  non-numeric path matches no row, so GET, PUT and DELETE answer "Project not
  found"; that case is not modelled separately.
- The server bootstrap, static files and headers (`index.js`), the reviews and
  `project_files` tables (schema only, no behaviour in these routes), and file
  upload (absent from these routes).
