# MyTodoApp backend core, modelled in Dafny

This project models the deterministic core of the MyTodoApp REST backend. It has three parts:

- **To-do store and list query.** The `todos` table is a map from `todo_id` to a `Todo` record, plus an auto-increment counter. Create, get, update and delete reach a row only through the pair (todo_id, user_id). `getAllTodo` is modelled as a small query planner. It filters by owner and by an optional search over title or description. It normalises the sort field and the sort order. It computes the offset, the page and the page count, and it has a special `"all"` mode.
- **Local accounts.** The `Users` table is a map from `user_id` to a `User` record, plus a counter. The operations are register, login, set-password, change-password, get-profile, update-profile and update-profile-picture. They are driven by the nullable `password`, the `passwordSet` flag and `authType`. Email stays unique across the table.
- **Social sign-in.** Google, GitHub and Facebook each take the provider's answer as an input. Each then applies its own lookup-or-create rule to the user table. GitHub also backfills a missing `github_id`.

Every operation is a pure function. An operation that writes returns `(reply, newStore)`. An operation that only reads returns its reply alone. A reply is `Ok(status, body)` or `Fail(status, message)`, with the status codes and messages the handlers send. Request fields are `Option` values, because a missing field (`undefined`) drives several error paths. `None` stands only for an absent field; a field sent as JSON `null` is not modelled.

Some things are abstracted away:

- bcrypt is a `Hash`/`Matches` pair: a digest matches exactly the password it was made from. bcrypt's 72-byte truncation is not modelled (see "## Left out").
- A JWT is the value `Token(user_id, email)`.
- The caller's id, normally supplied by the token middleware, is a parameter.
- Clocks, uploaded file names and provider responses are all parameters.

Files: `common.dfy` (Option, Reply, truthiness, credentials), `todo_model.dfy`, `todo_query.dfy` (ordering, search, sort, pages), `todo_controller.dfy`, `user_model.dfy`, `user_controller.dfy`, `google_auth.dfy`, `github_auth.dfy`, `facebook_auth.dfy`.

## Store invariants

- `TodoModel.Valid`:
  - every key was issued by the counter;
  - every row is stored under its own id.
- `UserModel.Valid`:
  - the same two conditions as for todos;
  - emails are unique;
  - `passwordSet` is true only when a password hash is stored.

Every writing operation carries `ensures Valid(s) ==> Valid(newStore)`. So email uniqueness survives every operation, including all three social flows.

## The code as written

The model follows the handlers' code. Several consequences are worth knowing:

- Register stores the hash but leaves `passwordSet` at its default `false`. A freshly registered account is therefore refused by change-password ("Password not set yet"). It is accepted by set-password without its current password, and set-password then marks it `"google+local"` (`RegisteredAccountPasswordFlags`).
- Login checks only that a hash is stored and that it matches. It never reads `passwordSet` (`LoginIgnoresPasswordSet`).
- Accounts created by Google or GitHub keep the column default `authType = "local"`. Only Facebook writes its own `authType`, `"facebook"`. Google stores no Google id.
- get-profile returns only id, name, email and profilePic.
- create-todo takes only title, description and due date from the body, so a new todo is never completed.
- update-profile-pic writes the account named in the path, which need not be the caller's.

## Model

| member | source | states |
|---|---|---|
| TodoModel.RowsOnce | backend/model/todo.js:5-9 | In a valid table, a scan yields every stored row exactly once, because the primary key is unique |
| TodoQuery.NormalizeSortBy | backend/controller/todoController.js:68-71 | A whitelisted sortBy is kept; anything else becomes createdAt |
| TodoQuery.NormalizeOrderAsc | backend/controller/todoController.js:73 | The order is ASC exactly for the three-letter strings that upper-case to "ASC"; every other string is DESC |
| TodoQuery.NormalizeIdempotent | backend/controller/todoController.js:68-73 | Normalising an already normalised sort field or order changes nothing |
| TodoQuery.Select | backend/controller/todoController.js:40-48 | The WHERE clause keeps exactly the caller's rows whose title or non-null description contains the search; an empty search adds no filter; multiplicities are kept |
| TodoQuery.SortTodos | backend/controller/todoController.js:76-81 | ORDER BY returns a permutation of its input, sorted by the key in the requested direction |
| TodoQuery.CeilDiv | backend/controller/todoController.js:86 | totalPages is the least page count whose pages hold every matching row; it is 0 exactly when nothing matches |
| TodoQuery.Page | backend/controller/todoController.js:76-81 | A page holds at most `limit` rows: those at offset (page-1)*limit onward. It is empty past the end and full when enough rows remain |
| TodoQuery.PageOfIndex | backend/controller/todoController.js:76-89 | Row k of the ordered result is entry k mod limit of page k div limit + 1, and that page lies between 1 and totalPages |
| TodoQuery.PagePastEnd | backend/controller/todoController.js:76-89 | A page number beyond totalPages returns no rows |
| TodoController.CreateTodo | backend/controller/todoController.js:7-22 | A missing title fails with 500 and changes nothing. Otherwise exactly one row is added under a fresh id, owned by the caller, not completed, with the given fields |
| TodoController.CreateFreshId | backend/model/todo.js:5-9 | The id create hands out is not in use and exceeds every id in use, so no id is reused |
| TodoController.GetTodo | backend/controller/todoController.js:99-112 | Succeeds exactly when the id exists and belongs to the caller, returning that row; otherwise 404 |
| TodoController.UpdateTodo | backend/controller/todoController.js:122-146 | 404 with no change unless the caller owns the id. Otherwise only title, description, due date and completion change, and only those present in the body; id, owner and creation time are kept |
| TodoController.DeleteTodo | backend/controller/todoController.js:156-173 | 404 with no change unless the caller owns the id. Otherwise exactly that row is removed and every other row is unchanged |
| TodoController.ListTodos | backend/controller/todoController.js:32-89 | Returns only the caller's stored rows that match the search. In "all" mode it returns every such row, newest first, with pagination (count, 1, 1). Otherwise it returns at most `limit` rows in the normalised order, with totalPages = ceil(totalTodos/limit) and currentPage = page |
| TodoController.MatchingExact | backend/controller/todoController.js:40-48 | The ordered query result contains exactly the stored rows that the WHERE clause keeps |
| TodoController.ListCountsAllMatches | backend/controller/todoController.js:50-89 | In a valid table, totalTodos counts every matching row exactly once, not just the page. In "all" mode the listing holds each matching row exactly once and nothing else. Otherwise the page is the slice of the full ordered result at the offset |
| TodoController.DefaultListing | backend/controller/todoController.js:36-81 | With every query parameter at its default (empty search, page 1, limit 10, createdAt DESC), the listing is the first ten of the caller's rows, newest first, taken from all of them |
| TodoController.FirstTodoListed | backend/model/todo.js:5-9 | On a fresh table the first todo created gets id 1, and the default listing shows that todo alone |
| TodoController.ListPagesCoverMatches | backend/controller/todoController.js:76-89 | Every matching row of the caller appears on some page between 1 and totalPages, under the one order of tied rows the model fixes |
| TodoController.ListIgnoresCompleted | backend/controller/todoController.js:63-65 | The is_completed query parameter does not affect the listing |
| TodoController.ListAllIgnoresSortAndPage | backend/controller/todoController.js:50-61 | In "all" mode, sortBy, order and page do not affect the listing |
| TodoController.OwnershipIsolation | backend/controller/todoController.js:104-167 | For another user's row, get, update and delete all return 404 and leave the store as it was |
| TodoController.OthersRowsUntouched | backend/controller/todoController.js:128-169 | No create, update or delete by one caller changes a row owned by someone else |
| TodoController.CreateGetUpdateRoundTrip | backend/controller/todoController.js:12-141 | A created todo reads back with its title, not completed and with no due date. After an update marking it completed, get shows it completed with the title kept |
| TodoController.DeleteThenGetAndCreate | backend/controller/todoController.js:161-169 | After a delete, get answers 404, and a following create does not reuse the id |
| UserModel.Create | backend/model/user.js:8-40 | The insert fails exactly when name or email is missing or the email is taken. Otherwise it adds one row under the counter's id, with passwordSet false, no picture and the given columns |
| UserModel.FindByEmail | backend/controller/userController.js:13 | The lookup returns an account holding the email, and in a counter-bounded table it finds one whenever one exists |
| UserModel.FindByGithubId | backend/controller/githubAuth.js:43-45 | The lookup returns an account linked to the GitHub id, and it finds none only when no account is linked |
| UserModel.FindByEmailExact | backend/model/user.js:12-16 | Because emails are unique, the email lookup returns exactly the account that holds the email |
| UserController.Register | backend/controller/userController.js:10-29 | An existing email gives 400 "User already exists" with no change. A missing email, or a free email with a missing name or password, gives 500 "Error registering user". Otherwise exactly one account is added, with Hash(password), passwordSet false and authType local, and its token carries the new id and email. Email uniqueness is kept |
| UserController.Login | backend/controller/userController.js:31-57 | Succeeds exactly when an account holds the email, has a stored hash and the password matches; the token names that account. A missing email gives 500. An unknown email gives "Invalid credentials". For the account holding the email: no hash gives the no-password message, and only then; a missing password gives 500; a hash that does not match gives "Invalid credentials" |
| UserController.SetPassword | backend/controller/userController.js:58-81 | 404 for an unknown caller and 400 when passwordSet is already true, both with no change. A missing password then gives 500 "Server error". Otherwise it stores Hash(p), sets passwordSet and sets authType to google+local |
| UserController.ChangePassword | backend/controller/userController.js:84-105 | 400 without passwordSet or with a wrong current password, with no change. A missing current password or stored hash, or a missing new password after a match, gives 500 "Server error". Success requires a matching current password and replaces only the hash |
| UserController.GetProfile | backend/controller/userController.js:109-129 | Returns exactly id, name, email and profilePic of the caller, or 404 when the caller's id is absent |
| UserController.UpdateProfile | backend/controller/userController.js:132-163 | The edit succeeds exactly when the caller exists and any new email is free. A new email held by another account gives 400 with no change. An absent, empty or unchanged email is kept, and the name changes only when a non-empty one is given. Only the caller's row changes, and email uniqueness is kept |
| UserController.UpdateProfilePic | backend/controller/userController.js:166-191 | No file gives 400 and an unknown path id gives 404, both with no change. Otherwise only the profilePic of the account named by the path becomes "/uploads/" + filename |
| UserController.RegisterThenLogin | backend/controller/userController.js:16-53 | After a successful register, login with the same email and password returns the same token |
| UserController.RegisterTwiceRefused | backend/controller/userController.js:13-14 | Registering the same email again is refused with 400, whatever the name and password, and changes nothing |
| UserController.RegisteredAccountPasswordFlags | backend/controller/userController.js:17-90 | A freshly registered account is refused by change-password ("Password not set yet") and accepted by set-password |
| UserController.SetPasswordOnce | backend/controller/userController.js:65-75 | After a successful set-password, every further set-password call is refused with no change |
| UserController.SetPasswordThenLogin | backend/controller/userController.js:31-75 | After set-password, login with the new password returns a token for the caller |
| UserController.ChangePasswordThenLogin | backend/controller/userController.js:34-99 | After a successful change-password, login with the new password returns a token for the caller |
| UserController.LoginIgnoresPasswordSet | backend/controller/userController.js:34-53 | Changing any account's passwordSet flag changes no login answer |
| UserController.UpdateProfileThenGetProfile | backend/controller/userController.js:113-158 | After an accepted profile edit, get-profile returns the name and email the edit replied with |
| GoogleAuth.GoogleLoginFlow | backend/controller/authController.js:8-51 | A missing credential gives 400 and every other failure gives 401, with no change. An account with the email is used unchanged. Otherwise exactly one account with only name and email is created, taking the defaults. The reply echoes the token's email, name and picture. A verified token with an email signs in exactly when an account holds the email or the token has a name |
| GoogleAuth.GoogleLoginIdempotent | backend/controller/authController.js:27-44 | Signing in twice with the same token gives the same reply and creates no second account |
| GithubAuth.ChosenEmail | backend/controller/githubAuth.js:39-40 | The chosen email is that of the first entry that is both primary and verified, whenever that email is non-empty. It is none when there is no such entry or its email is empty |
| GithubAuth.GithubLoginFlow | backend/controller/githubAuth.js:7-78 | A missing code gives 400 before any lookup. Lookup is by chosen email, else by GitHub id. A found account gets its GitHub id backfilled only if it had none. Otherwise exactly one account is created with name or login, email and github_id, and only when there is an email. After a successful exchange, sign-in succeeds exactly when an account is found or there is an email. Failures give 401 with no change |
| GithubAuth.NoEmailNoNewAccount | backend/controller/githubAuth.js:47-52 | Without a chosen email and without a linked account, creation fails into the 401 path and nothing changes |
| GithubAuth.GithubLoginIdempotent | backend/controller/githubAuth.js:43-56 | Signing in twice with the same identity gives the same reply and writes nothing the second time |
| FacebookAuth.FacebookLoginFlow | backend/controller/facebookAuth.js:7-61 | Lookup is by email only. An existing account is used unchanged. Otherwise exactly one "facebook" account with name, email and facebook_id is created. A profile with an email signs in exactly when an account holds the email or the profile has a name. Any failure gives 401 with no change |
| FacebookAuth.ExistingAccountNotLinked | backend/controller/facebookAuth.js:39-48 | An account that already holds the email is reused untouched, and no facebook_id is filled in |
| FacebookAuth.FacebookLoginIdempotent | backend/controller/facebookAuth.js:39-56 | Signing in twice with the same profile gives the same reply and creates no second account |

## Left out

- TodoQuery.SortTodos: titles are compared by character code, while MySQL compares them under the column's collation. The order of rows with equal keys is not specified by the database; the model fixes one order.
- TodoQuery.Select: search is plain, case-sensitive substring containment. The case-insensitive match of the MySQL collation is not modelled. Neither is the meaning of unescaped `%` and `_` in the search string as LIKE wildcards.
- UserModel.FindByEmail: emails are compared exactly. Case-insensitive collation of the unique index is not modelled.
- UserModel.FindByGithubId: `github_id` has no unique constraint, so two accounts can share one. This happens when a GitHub user changes their primary email and signs in again: a second account is created with the same id. `findOne` has no ORDER BY, so the database does not promise which of those accounts it returns. The model always returns the lowest id, and GithubAuth.GithubLoginIdempotent relies on that choice.
- TodoQuery.NormalizeOrderAsc: upper-casing is modelled only for the characters that can upper-case into "ASC". These are `a`-`z` and the long s (U+017F). This is exact for the comparison, but not a general `toUpperCase`.
- TodoController.ListTodos: page and limit are positive integers. `parseInt` coercion is not modelled, nor non-numeric or zero limits, nor the NaN offset that "all" mode computes and never uses.
- TodoController.UpdateTodo: a field sent explicitly as JSON `null` is not modelled. A field is either absent, and skipped, or present with a value.
- TodoController.ListPagesCoverMatches: the ORDER BY is on one column whose values can tie (createdAt, and the many null due dates). MySQL does not promise the same order of tied rows from one LIMIT/OFFSET query to the next, so in the program a row can be skipped or repeated across pages. The lemma holds only for the single tie order the model fixes.
- A request field sent as JSON `null` is not modelled in any handler; `None` is an absent field. The two differ in places. A null email at login makes the lookup search for `IS NULL`, which finds nobody and answers 400 "Invalid credentials", while the model's absent email answers 500. Register and the social sign-ins also look up a null email without throwing, but their answers coincide with the model's, because the insert that follows violates the NOT NULL email column. In update-todo a null description, due_date or is_completed would be written as null. A null title would be rejected by the NOT NULL title column (backend/model/todo.js:14-16), and the handler would answer 500 "Error updating todo".
- The `updatedAt` timestamps of both tables and the users' `createdAt` are not modelled. No operation reads them.
- Column length limits (VARCHAR(255) for title, name and email) are not modelled.
- The 500 replies for database failures other than the ones modelled are left out. The modelled ones are lookups with a missing email, inserts that violate NOT NULL, and hashing or comparing a missing password.
- get-profile's 401 branch for a request without a user is left out. The token middleware, which is not part of this model, supplies the caller's id as a parameter.
- bcrypt and JWT are left out: salting, cost factor, signing and the seven-day expiry. A token is only its claims.
- Credentials.Matches: a password matches a digest only when it equals the hashed password exactly. bcrypt hashes only the first 72 UTF-8 bytes, so in the program a login or change-password whose password agrees with the stored one on those bytes also matches. The model answers "Invalid credentials" or "Current password is incorrect" there. Character strings are not encoded to UTF-8 bytes in this model, so the truncation is not expressed.
- TodoController.CreateTodo: `due_date` is taken as an already parsed instant (`Option<Timestamp>`). In the program it arrives as a string and is converted by the DATE column type. An empty or unparseable `due_date` is not a valid date. The web client sends `""` when no date is picked, and when a date is cleared while editing. The insert of create-todo then fails with 500 "Error creating todo", and the save of update-todo with 500 "Error updating todo". Neither failure is modelled; the same holds for TodoController.UpdateTodo.
- The OAuth network requests are left out: the code exchange of section 4.1 of RFC 6749, the GitHub and Facebook profile requests, and Google's ID-token verification. Their outcomes are inputs, and a failed request is `None`.
- Multer upload handling is left out: disk storage, time-based file names, the 5 MB limit and the image type filter. The stored file name is an input.
- The password-reset flow (forgot-password, verify-OTP, reset-password) is left out. Its routes name handlers that the user controller does not define, and the user table has no columns for it.
- Concurrency is left out. The race between the email check and the insert is settled by the unique index; operations here run one at a time.
- Reply bodies are cut down to what the model states. Success bodies lose their `message` text ("Todo created successfully", "Profile updated", "Profile picture updated successfully!" and the like) and the social sign-ins' `success: true` flag. The 500 replies lose the `error: err.message` field. A reply keeps its status, its message for a failure, and the data a success returns.
- Express routing, server start-up, database and mailer set-up, and the React client are left out.
