# Verified model of the bruth authentication service

bruth is a small HTTP authentication service. It keeps users in an SQLite
`users` table and answers three routes:

- `register` stores a new user and returns a Bearer token.
- `login` checks a login string (email or username) and a password, then returns a Bearer token.
- `verify` reads a Bearer token and returns the stored user record.

This project models the user store and the decision logic of the three handlers in Dafny:

- `database.dfy` (module `Database`) models the store:
  - the table, as a sequence of rows in table order;
  - its UNIQUE columns;
  - the INSERT done by `create_user`, as a method of the `UserDB` class;
  - the SELECT lookups, as pure functions that return the first matching row.
- `handlers.dfy` (module `Handlers`) models the handlers:
  - `register` is a method that changes the store;
  - `login` and `verify` are functions of the table;
  - the Bearer-token extraction from the `Authorization` header is a function.
- `host.dfy` (module `Host`) models how the dotted-quad bind address is parsed into four bytes.
- `text.dfy` (module `Text`) holds the string operations: `trim` and `strip_prefix`, which `verify` uses, and `split`, which the host parsing uses.
- `tokens.dfy` (module `Tokens`) holds the token functions. They are supplied as parameters.
- `wrappers.dfy` (module `Wrappers`) holds `Option`.

Some things are outside the code the model can see, so they are parameters:

- bcrypt is a pair of function values, `hash` and `verify`.
- The token library is a pair `create` / `verify`.
- The UUID generator supplies the `freshId` argument.

A panic is a `Panicked`/`Aborted` outcome that leaves the table unchanged. A panic can come from:

- the `expect` on an error from bcrypt's `hash` (an error from bcrypt's `verify` becomes `false` through `unwrap_or`);
- a UNIQUE violation on INSERT.

Some behaviour of the code is worth knowing. The model keeps it as written:

- `login` answers 409 "User not exists" when no row matches the login string. It answers 401 when the password is wrong. A client can therefore tell an unknown login from a wrong password.
- `verify` returns the whole `User`: id, username, email, role and verified.
- Host octets are parsed the way Rust's `u8::from_str` parses them. A leading `+` and leading zeros are accepted, so `+1.02.3.4` binds to 1.2.3.4.
- UNIQUE holds per column only. One user's username may therefore be another user's email. A login by that string reaches whichever row comes first (`LoginShadowedAcrossColumns`).

## Model

| member | source | states |
|---|---|---|
| `Database.Insert` | src/database.rs:37-44 | an INSERT accepted by the UNIQUE constraints keeps every id, username and email distinct |
| `Database.UserDB.Open` | src/database.rs:28-33 | opening the store keeps the existing rows, and they satisfy the UNIQUE invariant |
| `Database.UserDB.CreateUser` | src/database.rs:50-71 | success exactly when hashing succeeds and the id, username and email are all new; then exactly one row is appended, with the given columns, the hashed password, role "user" and verified 0; the returned user has those fields and is unverified; every panic leaves the table unchanged; the UNIQUE invariant is preserved |
| `Database.FirstMatch` | src/database.rs:99-102 | the cursor stops at the first row, in table order, that the WHERE clause selects; None exactly when no row is selected |
| `Database.QuerySingle` | src/database.rs:99-113 | None exactly when no row matches; otherwise the first matching row, without its credential, with `verified` true iff the stored integer is non-zero |
| `Database.GetUserById` | src/database.rs:73-75 | a returned user has the requested id; None iff no row has it |
| `Database.GetUserByUsername` | src/database.rs:77-79 | a returned user has the requested username; None iff no row has it |
| `Database.GetUserByEmail` | src/database.rs:81-83 | a returned user has the requested email; None iff no row has it |
| `Database.GetUserByLogin` | src/database.rs:85-90 | a returned user's email or username equals the login string; None iff no row has either |
| `Database.GetPasswordById` | src/database.rs:114-120 | the credential of a row with that id; None iff there is none |
| `Database.VerifyLogin` | src/database.rs:92-97 | a success is the user the login lookup finds; in a table that keeps its UNIQUE constraints, success iff the first row matching the login has a credential the password matches (a bcrypt error counts as no match) |
| `Database.LookupStoredKey` | src/database.rs:73-83 | with UNIQUE columns, looking up a stored id, username or email returns exactly that row, and its credential by id |
| `Database.QueryIgnoresCredentials` | src/database.rs:103-109 | a lookup's result never depends on the stored credentials, so the password hash is never exposed |
| `Handlers.Register` | src/main.rs:58-82 | 409 "User already exists" with the table unchanged when the email or the username is taken (either suffices); otherwise a panic on hash failure or id collision (table unchanged), or one new row and 200 with `Authorization: Bearer <create(freshId)>`; the UNIQUE invariant is preserved |
| `Handlers.Login` | src/main.rs:84-110 | 409 "User not exists" iff no row has the login string as email or username; with UNIQUE columns, 200 iff the first matching row's credential matches the password; 200 carries a Bearer token for that row's id; otherwise 401 with no body |
| `Handlers.ExtractToken` | src/main.rs:115-118 | the extracted token never begins or ends with whitespace; which token comes out is stated by `BearerPadding` (values with the prefix) and `BarePadding` (values without it), which together cover every header value |
| `Handlers.BearerRoundTrip` | src/main.rs:115-118 | the header value `Bearer <token>` written by register and login yields `<token>` again, when the token has no surrounding whitespace |
| `Handlers.BearerPadding` | src/main.rs:115-118 | whitespace between the prefix and the token, or after the token, is ignored |
| `Handlers.BarePadding` | src/main.rs:115-118 | a value without the "Bearer " prefix yields the whole value with the whitespace around it dropped (so `" Bearer x"` yields `"Bearer x"`) |
| `Handlers.BareToken` | src/main.rs:115-118 | a trimmed value without the "Bearer " prefix is taken whole as the token |
| `Handlers.ExtractTokenIdempotent` | src/main.rs:115-118 | extracting again changes nothing unless the token itself starts with "Bearer " |
| `Handlers.Verify` | src/main.rs:111-148 | missing header gives 400 and unreadable header gives 500, both with no body; a rejected token gives 401 "Invalid/Expired Token"; an accepted token whose id has no row gives 404 "User not found"; otherwise 200 with the first row with that id; no other status; no token is sent |
| `Handlers.IssuedTokenVerifies` | src/main.rs:119-124 | a token issued for a stored user and accepted by the token library, sent as a Bearer header, gives 200 and exactly that user's record |
| `Handlers.RegisterThenVerify` | src/main.rs:72-81 | the header returned by a successful registration passes verify and shows the new user: given username and email, role "user", unverified |
| `Handlers.RegisterThenLogin` | src/main.rs:96-106 | after registration, logging in by the new email or username with the same password issues a token for the new id, unless an older user holds that string in the other column |
| `Handlers.LoginShadowedAcrossColumns` | src/database.rs:85-90 | when an earlier row holds the login string as its email and a later row holds it as its username, login under that string is refused (401) for every password the earlier row's credential does not match, including the later user's correct password |
| `Handlers.LoginShadowedInstance` | src/database.rs:85-90 | a concrete two-row table in which the user "bob" is refused with their own correct password |
| `Text.TrimStart` | src/main.rs:118 | removes exactly a whitespace prefix; the rest is a suffix of the input not starting with whitespace |
| `Text.TrimEnd` | src/main.rs:118 | removes exactly a whitespace suffix; the rest is a prefix of the input not ending with whitespace |
| `Text.Trim` | src/main.rs:118 | the result is trimmed and is a slice of the input with only whitespace around it |
| `Text.TrimCharacterised` | src/main.rs:118 | for any split of a string into whitespace, a trimmed middle and whitespace, Trim returns that middle |
| `Text.TrimOfTrimmed` | src/main.rs:118 | trimming a trimmed string changes nothing |
| `Text.TrimIdempotent` | src/main.rs:118 | Trim is idempotent |
| `Text.StripPrefix` | src/main.rs:116 | Some iff the string starts with the prefix, and then prefix + result is the string |
| `Text.Split` | src/main.rs:45 | at least one piece; no piece contains the separator |
| `Text.JoinSplit` | src/main.rs:45 | joining the pieces of a split with the separator restores the string |
| `Text.SplitJoin` | src/main.rs:45 | splitting a join of at least one separator-free piece gives back the pieces |
| `Host.ParseOctet` | src/main.rs:46 | the digit loop of `u8::from_str`, which fails as soon as the running value passes 255, accepts exactly an optional '+' followed by one or more decimal digits whose positional value is at most 255, and yields that value |
| `Host.AccumulateMeaning` | src/main.rs:46 | the left-to-right digit loop with its overflow check ends with the positional value of the digits when that is a byte, and fails otherwise |
| `Host.ParseOctetSpelled` | src/main.rs:46 | an optional '+', any number of leading zeros and the decimal spelling of a byte parse to that byte |
| `Host.ParseOctetOnlySpelled` | src/main.rs:46 | every string that parses to a byte is an optional '+', some leading zeros and the decimal spelling of that byte |
| `Host.ParseOctetDecimal` | src/main.rs:46 | every byte printed in decimal parses back to itself |
| `Host.ParseOctets` | src/main.rs:45-47 | collecting succeeds iff every piece parses, keeping one byte per piece in order |
| `Host.ParseHost` | src/main.rs:42-49 | succeeds iff the host splits on '.' into exactly four pieces that all parse; the result is those four bytes in order |
| `Host.ParseFormatHost` | src/main.rs:42-50 | every IPv4 address, written in its dotted-quad form, is parsed back to the same four bytes |
| `Host.DecimalValue` | src/main.rs:46 | the decimal spelling of a number reads back as that number |

## Left out

- Token signing and expiry are left out. They happen inside the JWT library behind `create_token`/`verify_token` (src/tokens.rs). The model passes both in as uninterpreted functions, and `create` stands for the token issued at the moment of the call.
- bcrypt is left out. `hash` and `verify` are uninterpreted function values. The salt is not modelled, and neither collision freedom nor `verify(p, hash(p))` is assumed; lemmas that need the latter take it as a hypothesis.
- `Uuid::new_v4` is left out. The new id is the `freshId` argument.
- The order of the rows SQLite returns for the `email = ?1 OR username = ?1` query is unspecified. The model takes the first matching row in table order.
- The global `Lazy<Mutex<UserDB>>`, the lock taken by each handler, and mutex poisoning after a panic are left out. The tokio runtime and axum routing and serving are left out too. The model is one sequential store.
- JSON request parsing, axum's rejection of malformed bodies, and response serialisation are left out. Responses are a status, an optional `Authorization` value and an abstract body.
- The `HeaderMap` behaviour is left out: case-insensitive header names, the first of repeated headers, and `to_str`'s visible-ASCII rule. The header arrives already classified as missing, unreadable or text.
- Panics from `format!(…).parse().unwrap()` on the response header and from `create_token`'s `expect` are not modelled. Handlers always produce the header.
- Panics from rusqlite's `prepare`, `query` and `row.get` unwraps are not modelled. The same holds for I/O errors of the database file.
- The port, `SocketAddr` and the server bind are left out. Only the host-to-bytes conversion is modelled.
- src/config.rs (reading and deserialising the configuration file) is not part of this model.
- Nothing in the code changes the `verified` flag or deletes a user, so the model has no such operation. Logout and server-held tokens do not appear in this code either.
