# Account and session subsystem of go-web-api, in Dafny

This project models the `auth` package of a small Go web API. The package
registers accounts, checks passwords, and tracks signed-in users with a
session cookie.

- **Credential store** (`auth/user.go`). A user has a username, a password
  hash and two name fields. `SetUsername` and `SetPassword` accept a string
  only when it is 8 to 40 code points long. The password hash is the
  lowercase hex of its SHA-256 sum. Accounts live in `users.csv`. That file
  is an ordered table of four-column rows, and its first row is a header.
  `FetchUser` scans the table for the first row whose column 0 matches.
  `user.Write` appends a row unless the username is already present.
- **Session store and cookie protocol** (`auth/session.go`). A session id is
  16 random bytes, hex-encoded to 32 characters. Each session is a file named
  after its id that holds the username and a newline. The file is created
  exclusively and is removed on sign-out. A cookie named `session_id` carries
  the id to the client.

Modules, one per source concern:

- `errors.dfy` (`Errors`): the error values, and the `Option`, `Result` and
  `Outcome` wrappers that stand in for Go's `(value, error)` returns.
- `hex.dfy` (`Hex`): `hex.EncodeToString` and its inverse.
- `users.dfy` (`Users`): `auth/user.go`. There is a `User` class whose methods
  update its fields in place, and a `UsersFile` class for `users.csv`. Its
  `Valid()` invariant says the header comes first and column 0 is unique.
  Pure lookup functions over `seq<Row>` carry the lemmas.
- `sessions.dfy` (`Sessions`): `auth/session.go`. The `SessionDir` class holds
  `files: map<id, content>`. A `Session` class has a constant id and user. The
  cookie record is a datatype. `ResponseWriter` records the cookies set on
  the response. `Resolve` is the pure reference for `sessionFromFile`.
- `scenario.dfy` (`Scenario`): a client that runs sign-up, sign-in,
  cookie resolution, sign-out and replay, using only the contracts above.

What the environment supplies is passed in as parameters:

- SHA-256 is a parameter `hash: Sha256`, a function from a string to 32
  bytes. No collision resistance is claimed. Only the end-to-end scenario
  assumes anything more of it: its precondition says the two passwords it
  uses have different digests.
- The random source is a byte stream `entropy`. A stream shorter than 16
  bytes is a failed `rand.Read`.

Four behaviours of the code worth noting:

- Usernames have no character-set check. Only the length is enforced.
- Resolving a missing session is an error: the session file is not found.
  It is not an empty result.
- An id collision is the `O_EXCL` error on the existing file.
- `Terminate` sets the delete cookie before it deletes the file, so the
  cookie is set even when the delete fails.

Two behaviours of the code are stated as lemmas:

- The header row is scanned like any other row. So in every table that
  starts with the header, the name "username" is taken and `User.Write` of
  it fails. No password can ever match the header's hash column
  (`HeaderNeverAuthenticates`).
- A session file is read back as its first line. So the round trip holds
  only for usernames with no newline and no trailing carriage return
  (`FirstLineOfSessionFile`). The length policy does admit names that
  contain a newline, and `NewlineUsernameReadsBackTruncated` shows one,
  "victim01\nx", that reads back as "victim01". So a session for
  "victim01\nx" resolves to the account "victim01" if that account exists.

## Model

| member | source | states |
|---|---|---|
| `Hex.Encode` | auth/session.go:33 | hex encoding yields two characters per byte, all lowercase hex digits |
| `Hex.DecodeEncode` | auth/session.go:33 | decoding an encoding gives back the original bytes |
| `Hex.EncodeDecode` | auth/session.go:33 | every string that decodes is the encoding of what it decodes to |
| `Hex.DecodeDefined` | auth/session.go:33 | a string is an encoding exactly when it is even-length lowercase hex |
| `Hex.EncodeInjective` | auth/user.go:27 | two byte strings have the same hex encoding exactly when they are equal |
| `Users.PasswordHash` | auth/user.go:24-28 | the password hash is always 64 lowercase hex digits |
| `Users.PasswordHashMatchesDigest` | auth/user.go:24-28 | two passwords get the same stored hash exactly when their SHA-256 sums agree |
| `Users.HashIsNotPlaintext` | auth/user.go:125-137 | for any password the policy admits, the stored hash differs from the password |
| `Users.FirstMatch` | auth/user.go:62-66 | the scan stops at the first row whose column 0 equals the name, or at the end; no earlier row matches |
| `Users.Lookup` | auth/user.go:62-68 | the lookup is empty exactly when no row has the name; what it finds is a row of the table with that name |
| `Users.LookupSpec` | auth/user.go:62-68 | the lookup is empty exactly when no row has the name; otherwise it is the first row with that name |
| `Users.LookupUnique` | auth/user.go:71-72 | with unique usernames, looking up any row's name gives back that row |
| `Users.LookupAppend` | auth/user.go:73-100 | appending a row leaves every name that was found unchanged; an absent name becomes the new row if it is that row's name |
| `Users.AppendKeepsUnique` | auth/user.go:73-100 | appending a row whose name is absent keeps column 0 unique |
| `Users.HeaderNeverAuthenticates` | auth/user.go:150 | in every table whose first row is the header, "username" (a name the policy admits) finds the header, whose hash column matches no password |
| `Users.User.constructor` | auth/user.go:38 | a new user has all four fields empty |
| `Users.User.FromRow` | auth/user.go:64 | the user built from a row has exactly that row's four columns |
| `Users.User.CheckPassword` | auth/user.go:121-123 | true exactly when the stored hash is the hash of the password; only a 64-digit lowercase hex hash can pass; holds after SetPassword succeeds |
| `Users.User.SetUsername` | auth/user.go:103-113 | succeeds exactly when the code-point count is in [8,40]; then username is the input, otherwise it is unchanged; no other field changes |
| `Users.User.SetPassword` | auth/user.go:127-137 | succeeds exactly when the code-point count is in [8,40]; then the hash is stored, the password checks, and it is not stored in plain; otherwise unchanged; no other field changes |
| `Users.User.Write` | auth/user.go:73-100 | a missing table or a present username is an error with the table unchanged; otherwise exactly this user's row is appended, the invariant still holds, and then the lookup finds this row |
| `Users.NewUser` | auth/user.go:37-46 | fails exactly when either check fails, reporting the username first; on success a fresh user with the given name, the password's hash and empty name fields |
| `Users.UsersFile.InitUsers` | auth/user.go:142-158 | fails with the table unchanged if the file exists; otherwise the table is exactly the header row |
| `Users.UsersFile.FetchUser` | auth/user.go:51-69 | a missing file is an error; otherwise null with no error when no row matches, or a fresh user built from the first matching row |
| `Sessions.GenerateRandomId` | auth/session.go:25-34 | a short random read is an error; otherwise the id is the hex of the first 16 bytes, 32 lowercase hex digits that decode back to those bytes |
| `Sessions.NewlineIndex` | files/files.go:20-23 | the position of the first newline, or the length when there is none |
| `Sessions.DropCR` | files/files.go:21-22 | the line less one trailing carriage return, if it has one, and otherwise the line unchanged |
| `Sessions.FirstLine` | auth/session.go:73-77 | `lines[0]`: the content up to its first newline (or its end), less one carriage return when that is the last character before it; a prefix with no newline; the contract determines the line |
| `Sessions.SessionFileContent` | auth/session.go:98 | the session file holds the username followed by exactly one final newline |
| `Sessions.FirstLineOfSessionFile` | auth/session.go:73-77 | the first line of a written session file is the username exactly when it has no newline and no trailing carriage return |
| `Sessions.NewlineUsernameReadsBackTruncated` | auth/session.go:98 | a username the policy admits that holds a newline is read back from its session file as a different name |
| `Sessions.ResolveAfterWrite` | auth/session.go:71-84 | after a session is written, resolving its id yields the row of the user with the written name, if the table holds that name |
| `Sessions.ResolveOrphan` | auth/session.go:77-82 | a session whose user is not in the table fails with the missing-user error |
| `Sessions.Resolve` | auth/session.go:71-84 | succeeds exactly when the file exists, the table exists and holds the file's first line as a name; it then yields a table row with that name; otherwise the first failing step gives its error: the session file not found, then the users file not found, then the user missing |
| `Sessions.WriteThenDelete` | auth/session.go:90-110 | writing a new id and deleting it restores the directory, after which the id fails to resolve |
| `Sessions.DeleteCookie` | auth/session.go:135-149 | the delete cookie is a session cookie with value "deleted" and max-age -1 |
| `Sessions.CookieSessionId` | auth/session.go:154-160 | the guard passes exactly when the cookie's name is "session_id", and then yields the cookie's value; otherwise it is an error naming the cookie |
| `Sessions.DeleteCookieNamesNoSession` | auth/session.go:135-149 | the delete cookie passes the guard with a value that no generated id can equal |
| `Sessions.ResponseWriter.SetCookie` | auth/session.go:57 | the response gains exactly the given cookie at the end |
| `Sessions.Session.constructor` | auth/session.go:43 | a session holds the given id and user |
| `Sessions.Session.CreateCookie` | auth/session.go:116-130 | the session cookie is named "session_id", Secure, HttpOnly, with value the id, raw text "session_id=id", and max-age 86400 |
| `Sessions.Session.Write` | auth/session.go:90-103 | an existing id is an error with the directory unchanged; otherwise exactly the mapping from id to the username and a newline is added |
| `Sessions.Session.Delete` | auth/session.go:107-110 | an absent id is an error with the directory unchanged; otherwise exactly that id is removed |
| `Sessions.Session.Terminate` | auth/session.go:64-67 | the delete cookie is always set; then it succeeds and removes exactly that id, or fails when the id is absent |
| `Sessions.NewSession` | auth/session.go:38-44 | a fresh session for the user under the generated id, or the random-source error; nothing is stored |
| `Sessions.InitSession` | auth/session.go:48-60 | on a random or collision error nothing is stored and no cookie is set; otherwise the session is stored and then its cookie is set |
| `Sessions.SessionFromFile` | auth/session.go:71-84 | fails for an absent id, a missing table or a missing user; otherwise returns a fresh session with the id whose user is the row for the file's first line |
| `Sessions.SessionFromCookie` | auth/session.go:154-161 | a cookie with the wrong name is refused whatever the store holds; otherwise the result is that of resolving the cookie's value |
| `Sessions.CookieRoundTrip` | auth/session.go:116-130 | a session's own cookie passes the guard and yields exactly its id |
| `Scenario.SignUp` | auth/user.go:37-100 | on a fresh installation, InitUsers then NewUser and Write of alice_01 leave exactly the header and her row |
| `Scenario.SignUpSignInSignOut` | auth/session.go:48-84 | register alice_01 and sign in; a wrong password is refused if its digest differs; the cookie resolves to alice_01; after sign-out, replaying the cookie finds no session and a second sign-out fails |

## Left out

- File I/O is abstracted. `users.csv` is a row sequence and a flag saying
  whether the file exists. The session directory is a map from id to file
  content. CSV quoting and parsing, `bufio` buffering and file handles are
  not modelled.
- Only two I/O failures are modelled: a missing file, and an existing file
  under `O_EXCL`. No other I/O error is: not permissions, a full disk, a
  malformed CSV file, a failed CSV write or flush, or `bufio.Scanner`'s
  overlong-line error.
- Users.User.Write, Users.UsersFile.Valid: rows are assumed to read back
  exactly as they were written. In the program, `csv.Writer` keeps a "\r\n"
  inside a quoted field, but `csv.Reader` reads it back as "\n". The length
  policy admits a username containing "\r\n". Such a user is not found by
  `FetchUser` after `Write`, and the same name can be written twice. It also
  collides with the name that has "\n" in place of "\r\n". So the
  program does not keep column 0 unique for such names, although the model
  does.
- Every row has four columns. `csv.Reader.ReadAll` rejects a file whose rows
  differ in width, so `row[0]`..`row[3]` cannot go out of range.
- SHA-256 and `crypto/rand` are foreign calls, so both are parameters. No
  collision resistance and no unpredictability is assumed.
- Strings are sequences of Unicode code points, so `utf8.RuneCountInString`
  is the length. Go counts each invalid UTF-8 byte as one rune. Invalid
  UTF-8 is not modelled.
- Sessions.SessionFromCookie, Sessions.Session.Write: session ids are opaque
  map keys, and what `SessionStoragePath + "/" + id` means as a path is not
  modelled. An id containing "/" can name a file in a subdirectory, and one
  containing ".." can name a file outside the directory. Distinct strings
  such as "abc", "./abc" and "x/../abc" also name the same file. In the
  program a cookie whose value is "./" followed by a stored id resolves that
  session, and `Session.Write` under such an id fails because the file
  already exists. In the model these are distinct keys that are absent.
- In the model, `lines[0]` in `sessionFromFile` never reads an empty file.
  Files are only created by `session.Write`, and `SessionDir.Valid()` keeps
  every file non-empty. In the program the file is created before the
  username is written. A failed `WriteString` leaves an empty file behind,
  and a concurrent reader can see the file before the write. In both cases
  `lines[0]` indexes an empty slice. Write failures and concurrency are
  left out, as noted elsewhere in this list.
- A nil user passed to `NewSession` makes `Write` panic. In the model a
  session's user is non-null.
- `http.SetCookie` is an append to the response's cookie list.
  Header rendering and its validity checks are not modelled. The other
  `http.Cookie` fields (Path, Domain, Expires, SameSite) keep their zero
  values in the source and are not modelled.
- Error message texts are not modelled. Each error is a constructor of
  `Errors.Error`.
- `GetUsername` and `GetId` only read a field. The model reads the fields
  directly.
- Concurrency is not modelled: there is no locking, and the
  check-then-append in `user.Write` is racy.
- Session expiry and refresh are not modelled. They are only TODOs in the
  source, and the server enforces nothing.
- `app.go` (HTTP routing and form parsing) is not part of this model. It
  calls `auth.GetUser`, which does not exist.
- `init.go` (creating the session directory and calling `InitUsers`) is not
  part of this model. The session directory is assumed to exist.
