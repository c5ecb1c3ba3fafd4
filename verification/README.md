# kind-app credential layer in Dafny

This project models the password-credential layer of kind-app, a small
posting service written in Go, and the API's request-authorization decision.

- `base64.dfy` covers the padded base64url encoding of section 5 of RFC 4648, which Go's
  `base64.URLEncoding.EncodeToString` produces. A strict reference decoder
  is its inverse in both directions, so a hash is fixed by the digest it decodes to.
- `db.dfy` covers the storage contract the security layer calls. Class `Database` holds the
  `user` table as a map from user name to (hash, salt). It holds the session store as a map
  from session id to user name.
- `security.dfy` covers `hashPassword`, `Createuser`, `Authenticate`, `IsAuthenticated` and
  `RemoveSession`. The methods that change the store take the `Database` and say in their
  contracts what it holds afterwards.
- `api.dfy` covers `authorized` and the post-copying loop of `getPosts`.
- `types.dfy` holds the byte type, `Option`, `Result` (Go's `(value, error)`) and the errors.

SHA-512 is a parameter `sha` of type `Bytes -> Digest`, where a digest is any 64-byte
string. Nothing else is assumed about it. The 16 random salt bytes (`crypto/rand`) are a
parameter `saltDraw: Option<Salt>`; `None` means the random source failed. The session id
that the store issues is a parameter `issued: Option<string>`. Whether the database accepts
a write is a parameter `accepted`.

What is proved:
- The stored hash is 88 characters. It uses only `A-Z a-z 0-9 - _`, with `=` only in its last
  two places, so it fits the `CHAR(128)` column. It decodes back to exactly
  `sha(password + salt)`, and it is the only text that does.
- Two hashes agree exactly when the digests of their salted inputs agree.
- `Createuser` followed by `Authenticate` with the same password succeeds. A stored
  credential accepts exactly the passwords whose salted digest equals the registered one.
- Every failure path leaves the store as it was. A session is added only after the hashes
  compare equal.
- `authorized` is true only when the request has no `Authorization` header, has a
  `sessionid` cookie, and the store holds that session.

Notes on the code that the model keeps:
- `Authenticate` opens the session itself.
- `Authenticate` returns different errors for an unknown user and a wrong password.
- `security.go` calls `db.GetCreds`, while `db.go` defines `Getcreds`. Both are taken as the
  same lookup.

## Model

| member | source | states |
|---|---|---|
| `Base64.Symbol` | security/security.go:18 | each 6-bit value maps to a symbol of the URL-safe alphabet, and that symbol maps back to the value |
| `Base64.Encode` | security/security.go:18 | the output is 4 characters per started group of 3 bytes, uses only the URL-safe alphabet, and has `=` only in its last two positions |
| `Base64.DecodeEncode` | security/security.go:18 | decoding an encoding gives back the original bytes |
| `Base64.EncodeDecode` | security/security.go:18 | encoding what a text decodes to gives back that text: the decoder accepts only canonical text (zero bits after the final byte, section 3.5 of RFC 4648), so each byte string has exactly one text that decodes to it |
| `Base64.EncodeInjective` | security/security.go:18 | distinct byte strings have distinct encodings |
| `Security.HashPassword` | security/security.go:12-19 | the hash is 88 characters, at most the 128 of the password column; it uses only base64url symbols with trailing padding; it decodes to the SHA-512 digest of the password bytes followed by the salt bytes |
| `Security.OnlyTheHashDecodesToTheDigest` | security/security.go:12-19 | any text that decodes to the SHA-512 digest of the password followed by the salt is the hash itself, so the decoding clause of `HashPassword` determines the hash |
| `Security.HashesAgree` | security/security.go:12-19 | two hashes are equal exactly when the digests of their salted inputs are equal |
| `Security.EqualHashesNeedSameCredentialOrCollision` | security/security.go:12-19 | two password/16-byte-salt pairs give the same hash exactly when they are the same pair or their concatenated inputs differ and SHA-512 collides on them; equal hashes of different credentials need a SHA-512 collision |
| `Security.NewCredential` | security/security.go:52-53 | the credential stored at registration has an 88-character hash and carries the salt that was drawn |
| `Security.RegistrationRoundTrip` | security/security.go:27-53 | a freshly stored credential matches its own password; it matches an attempt exactly when the attempt's salted digest equals the password's |
| `Security.Createuser` | security/security.go:40-55 | a non-empty looked-up hash gives "User already exists" and leaves the store unchanged; a failed salt draw stores nothing; otherwise the row with `hashPassword(password, salt)` and the same 16-byte salt is inserted, or the insert error is returned; registration keeps every stored hash 88 characters and every salt 16 bytes |
| `Security.Authenticate` | security/security.go:22-37 | an unknown user gets the lookup error and a wrong password "Password is incorrect", and neither adds a session; on a hash match the store's new session id is returned, or an error that carries the store error; the session map changes only after a match |
| `Security.IsAuthenticated` | security/security.go:58-60 | exactly the store's validity answer: true iff a session with that id exists |
| `Security.RemoveSession` | security/security.go:63-69 | an unknown id returns the lookup error and deletes nothing; a known id deletes every session of the user it resolves to, which includes the id itself |
| `Security.RegisterThenLogin` | security/security.go:22-55 | registering a new user and then logging in with the same password succeeds and adds exactly that session |
| `Security.RegisterTwice` | security/security.go:40-55 | a second registration of the same name is refused and the first credential is kept |
| `Db.WithoutOwner` | security/security.go:68 | the sessions left after deleting by user name are exactly those of other users, with unchanged owners |
| `Db.Database.Getcreds` | db/db.go:73-92 | the stored hash and salt with no error when the user has a row; otherwise `""`, no salt and an error |
| `Db.Database.Adduser` | db/db.go:125-132 | the row is inserted exactly when the server accepts it and its values fit the column widths of db/db.go:60-62; otherwise the insert error is returned and the table is unchanged |
| `Db.Database.AddSession` | security/security.go:32-35 | the issued id is bound to the user name, or the store error is returned and nothing changes |
| `Db.Database.ValidSession` | security/security.go:58-60 | a session id is valid exactly when the store holds it; no error |
| `Db.Database.GetUsername` | security/security.go:63-67 | the owner of a known session id, or "session not found" |
| `Db.Database.DeleteSession` | security/security.go:68 | every session of the user name is removed, or the store error is returned and nothing changes |
| `Api.CookieIndex` | api/api.go:38 | the position of the first cookie with the name, or the number of cookies when none has it |
| `Api.FindCookie` | api/api.go:38-41 | no cookie exactly when none carries the name; otherwise the first sent cookie with that name |
| `Api.Authorized` | api/api.go:33-47 | false whenever an `Authorization` header is present; false without a `sessionid` cookie; otherwise exactly `IsAuthenticated(cookie value).valid`; true only when the store holds the cookie's session |
| `Api.GetPosts` | api/api.go:75-93 | a failed lookup gives status 400 with its error and no list; otherwise status 200 and one API post per stored post, in the same order, with `Content`, `Author`, `Likes` and `Id` copied unchanged and the date and comments formatted |

## Left out

- SQL plumbing in db/db.go is not modelled: the connection retry loop with `time.Sleep`, the DSN and environment settings, table creation, query text and row scanning. The two maps stand for the tables.
- `Db.Database.Getcreds` looks the name up as an exact map key. The code splices the name into the query text (db/db.go:76), and the `user` table declares no collation (db/db.go:60), so two behaviours are not modelled. First, a name containing `'` or `\` changes the query. With `'` it either fails or matches rows of other names. MySQL reads `\` as an escape, so `a\c` looks up `ac`, and a trailing `\` makes the query fail. When it fails, `Getcreds` returns `""` and an error (db/db.go:77-79), and `Createuser` ignores that error (security/security.go:41-42). So the existence check fails open: every registration of such a name inserts another row, and `Authenticate` for it always fails. Second, the server's default case-insensitive comparison lets "Alice" find the row of "alice": the code refuses `Createuser("Alice")` once "alice" exists and accepts `Authenticate("ALICE", ..)` with alice's password, where the model does the opposite. The guarantees of `Security.Createuser`, `Security.Authenticate`, `Security.RegisterTwice` and `Security.RegisterThenLogin` hold only for names that the query matches exactly, byte for byte.
- Store reads never fail in the model except when there is no row. A failed query or scan in `Getcreds`, `ValidSession` or `GetUsername` is not modelled, so the ignored `Getcreds` error in `Createuser` only ever means "no row".
- `Db.Database.Adduser`: the `user` table has no unique key on `username`, so an INSERT adds a row. The map keeps one row per name. Registration inserts whenever the looked-up hash is empty (security/security.go:41-42), not only when the name has no row. Every row registration writes has an 88-character hash (`Security.WellFormedUsers`), so in a store built by registration an empty hash means the name has no row, and the map agrees with the table. A row with an empty password, which the code never writes, is replaced in the map, while the code appends a second row that `Getcreds` may never return.
- `Db.Database.Adduser`: rejecting values wider than their columns assumes a server in strict SQL mode.
- `AddSession`, `ValidSession`, `GetUsername` and `DeleteSession` are not defined in db/db.go. They are modelled as the least a session map does: bind an issued id, test membership, look up the owner, and delete by owner. Id generation, collision retries, one session per user and expiry are not modelled.
- SHA-512 internals are not modelled. The digest is a parameter function with a 64-byte result.
- `crypto/rand` internals are not modelled. The salt is a parameter that is 16 bytes or a failure.
- Go strings are byte strings. The password is modelled as its bytes (`[]byte(password)`). User names and hashes are Dafny strings.
- Error message text is not modelled. This includes the `fmt.Errorf` calls without a formatting verb; errors are datatype values. `Authenticate`'s session error has no `%w`, so Go does not wrap the store error and keeps it only as extra message text; `SessionCreateFailed(cause)` carries it as a value.
- Token and JWT handling is not modelled, because the import and the parsing are commented out in api/api.go.
- main.go is not part of this model. Neither are gin routing, TLS, JSON rendering, `apiLanding`, `getPost`, `postPost` and `getComments` in api/api.go.
- `Api.GetPosts`: Go renders an empty result as JSON `null` (a nil slice); the model returns an empty list. `Date.String()` and `fmt.Sprintf("%#v")` are formatter parameters.
- Concurrency between requests sharing the store is not modelled; each operation runs alone.
