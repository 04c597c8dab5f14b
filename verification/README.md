# rust-auth: the login protocol and its authentication backend, in Dafny

This project models the part of rust-auth that has correctness and security
obligations. That part is the four server functions `log_in`, `sign_up`,
`logout` and `get_username` in `src/app.rs`, and the axum_login backend in
`src/auth.rs` they run on. The backend consists of the `User` row, its
`AuthUser` identity (`id`, `session_auth_hash`), the redacting `Debug` impls of
`User` and `Credentials`, and `AuthnBackend::authenticate` / `get_user`.

The model is functional. A `State` holds the user table and the session's user
(`Option<User>`). Each server function is a pure transition that returns a
`Step`: how the call ended (`Ok`, an `Err` carrying the `ServerFnError` text,
or a `Panic` carrying an `.expect` message) and the state after it.

- **User table.** It is a sequence of rows in insertion order, plus the id the
  next insert receives. `SELECT ... WHERE username = ?` and `... WHERE id = ?`
  with `fetch_optional` become "the first row that matches". `INSERT` appends
  one row. Unique usernames and ids are an invariant (`Auth.Valid`) that
  `sign_up` maintains through its existence check: `App.SignUpKeepsInv` proves
  every `sign_up` outcome preserves it, and `App.LogInKeepsInv` and
  `App.LogOutKeepsInv` do the same for the other transitions.
- **Session.** axum_login's `login` sets the session user and `logout` clears
  it.
- **bcrypt.** It is the uninterpreted `Auth.Hasher`: a `hash` function and a
  `verify` function. `verify` answers `None` when the stored hash cannot be
  parsed. The only assumption ever made about it is
  `Auth.VerifiesOwnHash(h, pw)`: a password verifies against its own hash.
- **Usernames.** `sign_up` stores `trim().to_lowercase()` of the name
  (`Text.Normalize`). Trimming strips exactly the Unicode White_Space
  characters. Lower-casing is modelled on ASCII.
- **`session_auth_hash`.** It is the UTF-8 encoding of the stored hash string
  (`Utf8.Encode`, section 3 of RFC 3629), proved to decode back to it.
- **`Debug` output.** The one-line `{:?}` form is modelled character for
  character: an `i64` in decimal, and strings quoted with `escape_debug` escapes. A reader is proved
  to recover the id and name from it. Changing the hash or password is proved
  not to change it.

Two places where the model departs from the text:

- The live body of `authenticate` (src/auth.rs:107-113) binds `creds.pw_hash`,
  a field `Credentials` does not have (src/auth.rs:50-53), so it does not
  compile. The model follows the lookup-then-verify version kept in the
  comment above it (src/auth.rs:89-104). That version panics if bcrypt cannot
  parse the stored hash.
- `sign_up` treats case and white-space variants of a name as one user.
  `log_in`, however, authenticates the name exactly as typed. A user who signed
  up as `" alice"` is stored as `"alice"` and cannot log in as `" alice"`,
  whatever collation the column has. Under the default BINARY collation the
  same holds for `"Alice"`. The model follows the code (see
  Findings). The corrected login (`App.LogInNormalised`) is modelled beside
  it.

Files: `wrappers.dfy` (Option, Reply), `text.dfy` (normalisation),
`utf8.dfy`, `debug_fmt.dfy` (Rust `{:?}` of integers and strings),
`auth.dfy` (src/auth.rs), `app.dfy` (src/app.rs).

## Model

| member | source | states |
|---|---|---|
| Text.Trim | src/app.rs:196 | the trimmed name has no white space at either end and is no longer than the input |
| Text.TrimSplit | src/app.rs:196 | every input is white space, then its trim, then white space: `trim` cuts off nothing but white space |
| Text.TrimUnique | src/app.rs:196 | any split of a string into white space, a trimmed middle and white space has `trim` equal to that middle, so the trim is uniquely determined |
| Text.Normalize | src/app.rs:196 | the name sign_up stores has no white space at either end and no ASCII capital |
| Text.NormalizeFixes | src/app.rs:196 | normalising leaves a name unchanged exactly when it is already trimmed and lower-case |
| Text.NormalizeIdempotent | src/app.rs:196 | normalising a stored name again changes nothing |
| Text.NormalizeIgnoresPadding | src/app.rs:196 | names that differ only by surrounding white space are stored as the same name |
| Text.NormalizeIgnoresCase | src/app.rs:196 | names that differ only in ASCII letter case are stored as the same name |
| Text.TrimLowerCommute | src/app.rs:196 | trimming then lower-casing gives the same name as lower-casing then trimming |
| Text.Lower | src/app.rs:196 | lower-casing keeps the length, leaves no ASCII capital, and maps each character on its own |
| Text.LowerFixes | src/app.rs:196 | lower-casing leaves a string unchanged exactly when it has no ASCII capital |
| Utf8.Encode | src/auth.rs:31-33 | the bytes `as_bytes` yields are at least as many as the characters and decode back to the original string |
| Utf8.EncodeInjective | src/auth.rs:31-33 | different strings never yield the same bytes |
| Utf8.EncodeAscii | src/auth.rs:31-33 | on ASCII text such as a bcrypt hash, the bytes are the character codes, one per character |
| Auth.SessionAuthHash | src/auth.rs:30-33 | the session hash is bytes that decode to exactly the stored pw_hash |
| Auth.SessionAuthHashDetectsChange | src/auth.rs:30-33 | two users have the same session hash if and only if they have the same pw_hash |
| Auth.Id | src/auth.rs:26-28 | `id()` is the row's stored id |
| Auth.IdIdentifiesRow | src/auth.rs:23-28 | in a valid table, `id()` tells rows apart: two rows share an id exactly when they are the same row |
| DebugFmt.ShowInt | src/auth.rs:41 | the decimal text of the id starts with a minus sign exactly when the id is negative, and reads back as the id with nothing left over |
| DebugFmt.ReadShowInt | src/auth.rs:41 | the decimal text of the `i64` id reads back as that id, including negative ids |
| DebugFmt.Quote | src/auth.rs:42-43 | a quoted, escaped string reads back as exactly that string with nothing left over |
| DebugFmt.ReadQuoteRoundTrip | src/auth.rs:42 | a name printed between quotes with its escapes reads back as exactly that name |
| Auth.DebugUser | src/auth.rs:37-46 | the `Debug` text of a User has the fixed shape from which its id and username are recovered exactly |
| Auth.DebugUserHidesHash | src/auth.rs:37-46 | the `Debug` text of a User does not depend on pw_hash: the fixed placeholder is printed instead |
| Auth.DebugCredentials | src/auth.rs:56-64 | the `Debug` text of Credentials has the fixed shape from which the username is recovered exactly |
| Auth.DebugCredentialsHidesPassword | src/auth.rs:56-64 | the `Debug` text of Credentials does not depend on the password |
| Auth.FindByName | src/auth.rs:89-95 | looking a name up finds nothing exactly when no row has that name; otherwise it finds a row of the table with that exact name |
| Auth.FindByNameUnique | src/auth.rs:89-95 | with unique names, the lookup finds the one row with that name |
| Auth.Authenticate | src/auth.rs:85-104 | an unknown name gives `None`. For a known name, the result is the row if bcrypt accepts the password, `None` if it rejects it, and a panic if the hash is unparsable. The result is never a row outside the table and never a store error |
| Auth.GetUser | src/auth.rs:116-123 | get_user finds a row with the id exactly when one exists; in a valid table it is the row whose `id()` that is |
| App.GetUsername | src/app.rs:42-46 | get_username is always Ok: the session user's name when logged in, `None` when logged out |
| App.LogOut | src/app.rs:48-56 | logout is Ok, leaves no session user and does not touch the table |
| App.LogOutIdempotent | src/app.rs:48-56 | logging out twice equals logging out once, and get_username then gives `None` |
| App.LogIn | src/app.rs:104-128 | A logged-in caller gets Ok and the state is untouched. Otherwise, in a valid table with a row of that name, the session user becomes that row iff bcrypt accepts the password, the answer is "Invalid login details" with the state unchanged iff bcrypt rejects it, and the call panics iff the stored hash is unparsable. An unknown name gives "Invalid login details" with the state unchanged. The table never changes |
| App.LogInRejectionHidesCause | src/app.rs:115-127 | an unknown name and a wrong password end in the same error text, with the state unchanged |
| App.LogInNormalised | src/app.rs:104-128 | corrected log_in: the name is normalised before lookup. A logged-in caller gets Ok with the state untouched. Otherwise, in a valid table with a row carrying the normalised name, the session user becomes that row iff bcrypt accepts the password, the answer is "Invalid login details" with the state unchanged iff bcrypt rejects it, and the call panics iff the stored hash is unparsable. A name whose normalised form has no row gives "Invalid login details". The table never changes |
| App.InsertUser | src/app.rs:214-218 | the insert adds exactly one row at the end with the next id, the given name and hash, and keeps the earlier rows |
| App.InsertKeepsValid | src/app.rs:198-218 | inserting a name that the existence check found absent keeps names and ids unique |
| App.SignUp | src/app.rs:167-229 | A logged-in caller gets Ok and nothing changes. A logged-out caller without the app state gets "Couldn't receive state from context" and nothing changes. A taken name gives "User already exists" iff the normalised name has a row, and nothing is written. The table otherwise gains at most the one new row |
| App.SignUpAddsOneRowAndLogsIn | src/app.rs:196-225 | given that a password verifies against its own hash, a new name adds exactly the row (next id, normalised name, hash) and logs it in; get_username then returns the normalised name |
| App.SignUpPanicsIffOwnHashFails | src/app.rs:208-225 | for a new name, sign_up panics exactly when the password does not verify against its own hash; the row is written and nobody is logged in |
| App.SignUpVariantRejected | src/app.rs:196-206 | after a signup of a new name, whether its login succeeded or panicked, any case or white-space variant of the name is refused to another client and nothing is written |
| App.LogOutKeepsInv | src/app.rs:48-56 | logout keeps the table valid and the session user in the table |
| App.LogInKeepsInv | src/app.rs:115-122 | log_in keeps the table valid and the session user one of its rows |
| App.SignUpKeepsInv | src/app.rs:196-225 | every sign_up outcome, the panic included, keeps names and ids unique and the session user in the table |
| App.SignUpThenLogInSameSpellingRejected | src/app.rs:115-117 | as written, a user who signed up with a name not in normal form is refused when logging in with the very same name, whatever bcrypt answers and whether or not the signup's own login succeeded |
| App.SpacedAliceCannotLogIn | src/app.rs:115-117 | " alice" signs up on an empty table, is stored as "alice", and is then refused a login as " alice"; no collation matches the two |
| App.AliceCannotLogIn | src/app.rs:115-117 | "Alice" signs up on an empty table, is stored as "alice", and is then refused a login as "Alice" |
| App.SignUpThenLogInAnySpelling | src/app.rs:115-117 | with the corrected log_in, any spelling that normalises to the stored name logs the new user in |

## Findings

| source | as written | input that shows it | evidently intended | confidence | as-written member | corrected member |
|---|---|---|---|---|---|---|
| src/app.rs:115-117 | `log_in` authenticates the name exactly as typed, but `sign_up` stored `trim().to_lowercase()` of it (src/app.rs:196) | sign up as " alice", log out, log in as " alice" with the same password: "Invalid login details" (App.SpacedAliceCannotLogIn, App.SignUpThenLogInSameSpellingRejected); under BINARY collation "Alice" fails the same way (App.AliceCannotLogIn) | `log_in` normalises the name the same way before authenticating, so every spelling that signup treats as the same name logs in (App.SignUpThenLogInAnySpelling) | medium; not executed | App.LogIn | App.LogInNormalised |

## Left out

- Leptos components (`App`, `HomePage`, `LogIn`, `SignUp`, `Secret`) and the `redirect` calls: these are rendering and routing.
- src/state.rs and src/main.rs are not part of this model: they do configuration reading, TOML parsing, pool creation and server bootstrap.
- Store and session I/O failures: every `?` on an sqlx query and on axum_login's `login`/`logout` can return an error. In the model the table and session always answer.
- Auth.FindByName: compares names with exact equality, which is SQLite's default BINARY collation. The table schema is not part of this model; under `COLLATE NOCASE` a case variant such as "Alice" would match "alice", though a padded one such as " alice" would still not.
- Auth.Authenticate: never returns a store error, because store failures are not modelled.
- App.LogOut: always Ok, because a session-store failure in `logout` (src/app.rs:52-55) is not modelled.
- `expect_context::<AuthSession>()` panicking when no session layer is installed: this is deployment wiring. The model assumes the session is present. The `use_context::<AppState>()` miss in `sign_up` is modelled as the `haveAppState` argument.
- `bcrypt::hash(...).expect` (src/app.rs:208): `hash` is total in the model. With the fixed cost of 12 its error path only covers library failure.
- bcrypt internals: salt randomness (one `hash` function per hasher stands for it), the cost constant `BCRYPT_COST = 12`, 72-byte password truncation, and constant-time comparison.
- The check-then-insert race between src/app.rs:198 and src/app.rs:214 under concurrent signups. The model is sequential, so two simultaneous signups of one name are not covered.
- Text.Lower: lower-cases ASCII letters only, because Unicode `to_lowercase` (multi-character and context-dependent mappings) needs the Unicode tables.
- DebugFmt.EscapeChar: escapes the ASCII range exactly as `escape_debug` does. Non-ASCII characters are printed as they are, because Rust's `\u{..}` escapes for unprintable and grapheme-extending characters depend on Unicode tables.
- App.InsertUser: the id is a counter kept with the table. SQLite's choice of rowid, the 64-bit bound on `i64` ids and the schema's own constraints are not modelled.
- axum_login internals: how the session stores the user id and compares `session_auth_hash` on later requests, session-id cycling on login, and cookie persistence. The session is just its current user.
- The multi-line `{:#?}` form that `dbg!` prints: only the one-line `{:?}` form is modelled.
- `println!`/`dbg!` logging and the commented-out timing-attack sleep.
