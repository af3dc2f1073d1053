# Session-based login and registration: a Dafny model

This project models a small Express web application. The application lets a
visitor register, log in, see a landing page while logged in, and log out.
A logged-in visitor is tracked by an in-memory **session store**. The store
maps an opaque session id, carried in the `uid` cookie, to the user record
that logged in. It has two operations: `setSession` inserts or overwrites an
entry, and `getSession` looks one up. Nothing ever removes an entry.

The model has five modules:

- `Wrappers` (`wrappers.dfy`): `Option`. Its `None` stands for JavaScript's `undefined`.
- `Users` (`users.dfy`): the user record `User(name, email, password)`. Also the
  `UserCollection` class, a table keyed by e-mail address. It stands in for
  `User.findOne` and `User.create`.
- `AuthService` (`auth_service.dfy`): the `SessionStore` class. Its `records`
  map is the table. A ghost `writes` history lists every `SetSession` call.
  `Valid()` ties the table to `Replay(writes)`, the table that those calls
  build from empty. The lemmas about `Replay` give the store's laws:
  keys are present exactly when written, the last write wins, other keys are
  undisturbed, and keys only accumulate.
- `Routes` (`routes.dfy`): the route handlers. A handler's answer is an
  `Outcome`: either a rendered view (with its error message, or with the user
  and session id on the home page), or a redirect with a cookie action (keep,
  clear, set).
  - `GET /`, `GET /register`, `GET /login` and `GET /logout` are functions.
  - `POST /register` and `POST /login` are methods. They call
    `UserCollection.FindOne`/`Create` and `SessionStore.SetSession` step by
    step. Each is proved equal to a value-level function: `RegisterEffect` or
    `LoginEffect`.
- `Traces` (`traces.dfy`): the handlers as one state machine over requests.
  It proves facts about any sequence of requests. For example, the landing
  page only ever shows a registered user. Failed sign-ins change nothing.
  Logout does not revoke the server-side entry.

The foreign parts become parameters:
- bcrypt is the `Bcrypt` value, a pair of function values `hash` and `compare`.
- The uuid minted per sign-in is the `uid` parameter.
- The cookie and the form fields are `Option<string>`.

JavaScript truthiness is modelled exactly by `Truthy`: both `undefined` and
the empty string count as missing. So a `uid` cookie equal to `""` sends
`GET /` to the login page without consulting the store or clearing the
cookie.

## Model

| member | source | states |
|---|---|---|
| `AuthService.SessionStore.constructor` | services/authService.js:1 | the store starts empty, with no write history |
| `AuthService.SessionStore.SetSession` | services/authService.js:3-5 | the written id now maps to the user; every other key is unchanged; the write is appended to the history |
| `AuthService.SessionStore.GetSession` | services/authService.js:7-9 | a stored user exactly when the id has an entry, and then that entry; it reads the store and changes nothing |
| `AuthService.ReplayHasKeyIffWritten` | services/authService.js:1-9 | after any sequence of writes from empty, a key has an entry if and only if some write used it |
| `AuthService.ReplayLastWriteWins` | services/authService.js:4 | the entry for a key is the user of the latest write to that key |
| `AuthService.ReplayOtherKeysUnchanged` | services/authService.js:4 | writes to other keys leave a key's presence and its user as they were |
| `AuthService.ReplayKeysGrow` | services/authService.js:11-14 | the key set of an earlier state is contained in that of every later state, since no exported operation removes an entry |
| `AuthService.NeverSetIsAbsent` | services/authService.js:7-9 | a store's lookup of a key is absent iff that key was never passed to `SetSession` |
| `AuthService.GetReturnsLatestWrite` | services/authService.js:7-9 | a store's lookup returns the user of the latest write to that key |
| `Users.UserCollection.FindOne` | index.js:47 | the document filed under the e-mail address, or absent exactly when there is none |
| `Users.UserCollection.Create` | index.js:59-63 | returns the new document and files it under its e-mail address |
| `Routes.Truthy` | index.js:39 | a field or cookie counts as missing exactly when it is `undefined` or the empty string, as in `if (req.cookies.uid)` (index.js:23) and the `!name`, `!email`, `!password` tests (index.js:39, index.js:78) |
| `Routes.NewUser` | index.js:59-63 | the document handed to `User.create` carries the submitted name and e-mail and, as its stored password, the bcrypt hash of the submitted password |
| `Routes.Home` | index.js:22-34 | no usable cookie: redirect to `/login` without consulting the store; unknown cookie: clear it and redirect to `/login`; otherwise render home with exactly the stored user and the cookie as session id, and only then |
| `Routes.GetHome` | index.js:22-34 | asking the live store through `GetSession` gives the same outcome as `Home` on the store's table |
| `Routes.RegisterForm` | index.js:71-73 | renders the registration form with no error |
| `Routes.LoginForm` | index.js:112-114 | renders the login form with no error |
| `Routes.Logout` | index.js:116-119 | redirects to `/login` and clears the cookie; it takes no state, so it cannot change any |
| `Routes.RegisterEffect` | index.js:36-69 | a missing or empty field gives "All fields are required" and a known e-mail gives "User already exists", both with the state unchanged; success, and only success, stores the user with `hash(password)`, maps the uid to that user and sets the cookie to that uid |
| `Routes.LoginEffect` | index.js:75-110 | the user table never changes; missing fields, an unknown e-mail and a failed compare each give their message and record no session; success, and only success, maps the uid to the stored user and sets the cookie to that uid |
| `Routes.HandleRegister` | index.js:36-69 | the step-by-step handler leaves the collection and the store, and returns the outcome, exactly as `RegisterEffect` says; it keeps the store valid and appends exactly one write to its history on success, none on failure |
| `Routes.HandleLogin` | index.js:75-110 | the step-by-step handler leaves the store, and returns the outcome, exactly as `LoginEffect` says; it keeps the store valid and appends exactly one write to its history on success, none on failure |
| `Traces.ApplyCookie` | index.js:67 | the browser's handling of the response's `uid` cookie, not a function of the source: set to the uid by `res.cookie` (index.js:67, index.js:108), emptied by `res.clearCookie` (index.js:26, index.js:117), otherwise kept |
| `Traces.Step` | index.js:22-119 | the route table: each request goes to its handler; the GET routes leave the state unchanged, only `POST /register` can change the user table, and `GET /` answers as `Home` |
| `Traces.StepKeepsConsistent` | index.js:36-110 | every request keeps users filed under their own address and every session pointing at the user filed under that user's address |
| `Traces.RunKeepsConsistent` | index.js:22-119 | that consistency holds after any sequence of requests |
| `Traces.HomeShowsOnlyRegisteredUsers` | index.js:22-34 | from an empty session table, after any requests, a rendered landing page shows a user filed in the collection under that user's address |
| `Traces.RunOnlyGrows` | index.js:36-110 | after any requests, all earlier session ids are still present and all earlier user documents are present and unchanged |
| `Traces.RenderedRequestChangesNothing` | index.js:36-110 | every request that renders a page, including each failed login or registration, leaves the state as it was |
| `Traces.OnlySuccessfulSignInRecordsSession` | index.js:65-67 | if a request changes the session table, it is a register or login that redirects to `/` setting the cookie to its uid, and that uid now has an entry |
| `Traces.FreshUidKeepsEntries` | index.js:106 | with a uid not already in the table, a request leaves every existing session entry as it was |
| `Traces.LogoutDoesNotRevoke` | index.js:116-119 | logout leaves the state unchanged and empties the client's cookie, while the old uid still renders home with the same user |
| `Traces.LoginThenHome` | index.js:106-109 | after a successful login the client's next `GET /` renders home with the looked-up user and the new uid |
| `Traces.RegisterThenLogin` | index.js:57-66 | when bcrypt accepts a password against its own hash, a fresh registration can log in with the same credentials; the second uid maps to the same user |

## Left out

- Express setup, body and cookie parsing, and the layout and view-engine configuration (index.js:1-20). This is framework plumbing. A response is modelled only as an `Outcome`. The `title` passed with each render is fixed per page ("Home", "Register", "Login") and is not carried by the views.
- The database connection, `app.listen` and process exit (index.js:121-131). These are I/O and lifecycle code.
- `models/User` and `config/database` are not part of this model. `User.findOne` and `User.create` are read as lookup in, and insertion into, a table keyed by e-mail address. Any schema normalisation (trimming, lower-casing), unique index or generated `_id` is not modelled.
- bcrypt internals, the random salt and the cost factor 10 are not modelled. `hash` and `compare` are arbitrary function values. The salt is folded into the `hash` value. The model assumes `compare(pw, hash(pw))` only where a lemma needs it (`Traces.RegisterThenLogin`).
- uuid generation is not modelled. The uid is a parameter. The source does not check that it is fresh, so no collision-freedom is claimed. Freshness appears only as an explicit precondition (`Traces.FreshUidKeepsEntries`).
- Asynchronous interleaving and concurrent requests are not modelled. Each handler is one atomic step. Under that assumption, writes to distinct keys lose no update: `AuthService.GetReturnsLatestWrite` covers any sequence of writes, and `Traces.FreshUidKeepsEntries` covers one request with a fresh uid.
- A rejected promise from the database or bcrypt is not modelled. The source does not handle it.
- Request fields and cookies are `Option<string>`. Non-string JSON body values (numbers, booleans, objects) and their truthiness are not modelled.
