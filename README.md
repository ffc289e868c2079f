# HTTP Basic authentication gate of the "things" API

This project models, in Dafny, the middleware that guards the
`/api/things/:thing_id` and `/api/things/:thing_id/reviews/` routes of a
small Express service with HTTP Basic authentication.

- `Base64.dfy` (module `Base64`): the base64 alphabet and encoding of
  section 4 of RFC 4648, with a strict decoder. The two are proved to be
  inverse bijections: every byte sequence survives encode-then-decode, and
  a string the decoder accepts is exactly the encoding of what it yields.
  The service itself only decodes. The encoder is there to state round trips.
- `AuthService.dfy` (module `AuthService`) models `src/auth/auth-service.js`:
  - `ParseBasicToken`: base64-decode the token, read the bytes as text,
    and split the text on every `':'`, as `String.prototype.split` does.
  - `GetUserWithUsername`: the first row of the user table whose
    `user_name` matches, or a database failure.
  - The colon splitting has its own lemmas: piece count, colon-free
    pieces, join/split inverses.
- `BasicAuth.dfy` (module `BasicAuth`) models `src/middleware/basic-auth.js`:
  - `Decide` is `requireAuth` as a pure decision. Its inputs are the
    Authorization header (None when absent), the user table, bcrypt's
    comparison and Node's decoding of non-canonical base64. Its result
    is one `Outcome` together with the collaborator calls made, in order.
  - The three outcomes are:
    - `Respond(401, error)`: the JSON body `{ error }`.
    - `Proceed(user)`: `req.user = user; next()`.
    - `Propagate(fault)`: `next(err)`.
  - The call trace makes ordering statable: no lookup before the
    emptiness check, one lookup, and a hash comparison only after a
    lookup found a user.
  - `RequireAuth` is the middleware as an imperative method. It walks the
    same steps with early returns and writes the outcome into a `Request`
    and a `Response` object and into how `next` is called. Its
    postcondition ties those writes to `Decide`.
- `Wrappers.dfy`: `Option` and `Result`.

### The colon split, against RFC 7617

Section 2 of RFC 7617 splits the decoded user-pass at the first colon. The
password may itself contain colons. The code splits on every colon, and
`requireAuth` keeps only the first two pieces. The model follows the code.
`ParseVersusRfc7617` states exactly when the two agree:

- the user name always agrees;
- the password agrees if and only if it contains no colon.

`PasswordCutAtColon` and `PasswordWithColonTruncated` show that a password
containing a colon reaches the lookup cut at its first colon.

Two further points where the code is narrower than a reading of RFC 7617
might suggest, both kept as written:

- The code checks only the five letters `basic`, in any case, with no
  space required after them. It then always drops six characters.
- The code has only two 401 bodies: `"Missing basic token"` when the
  prefix test fails, and `"Unauthorized request"` for every other refusal.

## Model

| member | source | states |
|---|---|---|
| Base64.Encode | src/auth/auth-service.js:10 | the base64 text of n bytes has 4 * ceil(n / 3) characters (the encoding the token is expected in) |
| Base64.Rfc4648Vectors | src/auth/auth-service.js:10 | the encoder gives the test vectors of section 10 of RFC 4648 for "" to "foobar" |
| Base64.Decode | src/auth/auth-service.js:10 | an accepted token has a length that is a multiple of four, and is empty exactly when the bytes are |
| Base64.DecodeEncode | src/auth/auth-service.js:10 | decoding the encoding of any byte sequence gives those bytes back |
| Base64.EncodeDecode | src/auth/auth-service.js:10 | a token the decoder accepts is exactly the encoding of the bytes it decodes to |
| Base64.DecodeIffEncoded | src/auth/auth-service.js:10 | decoding yields b if and only if the token is the encoding of b |
| AuthService.Text | src/auth/auth-service.js:11 | the text has one character per byte, with the byte's code |
| AuthService.Split | src/auth/auth-service.js:12 | `split(':')` always returns at least one piece |
| AuthService.SplitCount | src/auth/auth-service.js:12 | there is exactly one more piece than there are colons in the text |
| AuthService.SplitPiecesColonFree | src/auth/auth-service.js:12 | no piece contains a colon |
| AuthService.JoinSplit | src/auth/auth-service.js:12 | joining the pieces with ':' gives the text back exactly |
| AuthService.SplitJoin | src/auth/auth-service.js:12 | splitting a ':'-join of one or more colon-free pieces gives those pieces back |
| AuthService.UserPass | src/auth/auth-service.js:12 | the RFC 7617 reading the code is measured against: present iff the text has a colon, user-id colon-free, and text == user-id + ":" + password |
| AuthService.DecodeToken | src/auth/auth-service.js:9-10 | a token that is the encoding of some bytes decodes to exactly those bytes; any other token goes to Node's lenient decoding |
| AuthService.ParseBasicToken | src/auth/auth-service.js:8-13 | at least one piece, every piece colon-free, and the pieces joined with ':' are the decoded text |
| AuthService.ParseEncodedCredentials | src/auth/auth-service.js:8-13 | for u and p without ':' (either may be empty), the token of "u:p" parses to exactly [u, p] |
| AuthService.ParseWithoutColon | src/auth/auth-service.js:12 | a decoded text without ':' gives a single piece, so there is no password slot |
| AuthService.ParseEmptyToken | src/auth/auth-service.js:9-12 | the empty token parses to [""] |
| AuthService.ParseCount | src/auth/auth-service.js:12 | the number of pieces is the number of colons in the decoded text plus one |
| AuthService.ParseVersusRfc7617 | src/auth/auth-service.js:12 | when the decoded text has a colon: the first piece is the RFC user-id, and the second piece is the RFC password iff that password has no colon |
| AuthService.PasswordCutAtColon | src/auth/auth-service.js:12 | a password containing ':' comes back as its part before the first colon, never whole |
| AuthService.PasswordWithColonTruncated | src/auth/auth-service.js:12 | the token of "u:a:b" yields "a" as the password |
| AuthService.FirstWithName | src/auth/auth-service.js:3-5 | None iff no row has the name; otherwise a row with the name that no earlier row shares |
| AuthService.GetUserWithUsername | src/auth/auth-service.js:2-6 | the query fails iff the database does, with its fault; a found user has the name and is in the table; not found means no row has the name |
| BasicAuth.Lower | src/middleware/basic-auth.js:11 | the same length, no ASCII capital left, and only ASCII capitals changed, each to its lower-case letter |
| BasicAuth.HasBasicPrefix | src/middleware/basic-auth.js:11 | the test passes iff the header has at least five characters and they spell "basic" in some mix of upper and lower case |
| BasicAuth.OnlyCaseVariants | src/middleware/basic-auth.js:11 | a header that passes the test starts with a case spelling of "basic" (the converse of AnyCaseAccepted) |
| BasicAuth.Filled | src/middleware/basic-auth.js:17-19 | `tokenUsername && tokenPassword` holds iff at least two pieces were parsed and neither of the first two is empty |
| BasicAuth.BasicToken | src/middleware/basic-auth.js:14 | the header minus its first six characters (empty when it is shorter), a suffix of the header |
| BasicAuth.BasicPrefixIff | src/middleware/basic-auth.js:11-14 | the prefix test passes iff the first five characters lower-case to "basic", whatever follows; the token is then everything after the sixth character |
| BasicAuth.AnyCaseAccepted | src/middleware/basic-auth.js:11 | every upper/lower-case spelling of "basic" passes the prefix test |
| BasicAuth.Authenticate | src/middleware/basic-auth.js:17-43 | empty/missing credentials: 401 "Unauthorized request", no calls; else one lookup of the parsed name first; a comparison iff a user was found, with that user's hash; proceed iff found and matched, with the found user; faults propagate, and the error passed on is the database's or bcrypt's own; every refusal is the same 401 |
| BasicAuth.Decide | src/middleware/basic-auth.js:7-45 | 401 "Missing basic token" iff the header (absent read as "") fails the prefix test, with no calls; at most one lookup, first; proceeding carries the looked-up user whose hash matched |
| BasicAuth.AbsentHeader | src/middleware/basic-auth.js:8-12 | no header: 401 "Missing basic token", nothing looked up |
| BasicAuth.SchemeOnlyHeader | src/middleware/basic-auth.js:11-21 | the header "Basic" leaves an empty token: 401 "Unauthorized request", nothing looked up |
| BasicAuth.EncodedHeader | src/middleware/basic-auth.js:14-17 | "<basic in any case> " + base64("u:p") hands exactly u and p to the authentication steps |
| BasicAuth.KnownUser | src/middleware/basic-auth.js:23-40 | for a user in the table: proceeds with that user iff bcrypt matches, 401 "Unauthorized request" on a mismatch, calls are lookup then comparison |
| BasicAuth.UnknownUser | src/middleware/basic-auth.js:27-30 | for an unknown name: 401 "Unauthorized request" after exactly one lookup, bcrypt never called |
| BasicAuth.UnknownUserLikeWrongPassword | src/middleware/basic-auth.js:28-37 | an unknown user and a wrong password give the identical response |
| BasicAuth.ProceedOnlyWhenMatched | src/middleware/basic-auth.js:33-40 | proceeding implies the prefix passed, credentials were filled, the lookup found the attached user and its hash matched |
| BasicAuth.FaultsPropagate | src/middleware/basic-auth.js:23-43 | with filled credentials, the outcome is a propagated fault iff the database or bcrypt failed, and it carries that collaborator's own error |
| BasicAuth.RequireAuth | src/middleware/basic-auth.js:7-45 | a 401 sets the response status and error and leaves `req.user`; proceeding sets `req.user` to the user and calls `next()`; a fault calls `next(err)`; each as `Decide` prescribes |

## Left out

- DecodeToken: Node's `Buffer.from(token, 'base64')` is lenient. On a non-canonical token it skips stray characters, accepts URL-safe letters and missing padding, and stops at '='. The model leaves that decoding as the uninterpreted parameter `lenient` and assumes nothing about it. Canonical tokens are decoded exactly.
- Text: `toString()` decodes UTF-8, with replacement characters for malformed input. The model maps each byte to the character with the same code, which agrees with UTF-8 on ASCII only. The round-trip lemmas are therefore stated for ASCII credentials.
- HasBasicPrefix: `toLowerCase()` is Unicode-wide, but only ASCII case is folded here. No other character lower-cases to a single one of the letters b, a, s, i, c: U+0130 becomes "i" followed by U+0307, and the Kelvin sign becomes "k". So the test gives the same answer either way.
- BasicToken: `slice` counts UTF-16 code units. The model counts characters, which differ only for characters outside the Basic Multilingual Plane.
- FirstWithName: the knex query is I/O. It is replaced by first-match over a sequence of rows. `.first()` without `orderBy` returns whichever row the database yields first.
- bcrypt's `compare` is an uninterpreted parameter of type `Comparer`. Its cost and its timing behaviour are not modelled.
- Promise chaining and asynchrony are modelled as the sequential call trace in `Decision`. Interleaving with other requests is not modelled, since no state is shared.
- An exception thrown inside the promise handlers by anything other than the two collaborators (for example by `res.json`) is not modelled.
- From Express, only `req.get('Authorization')`, `req.user`, the response status, the `error` field of the JSON body and the `next` continuation are represented. `req.app.get('db')` becomes the `Database` parameter.
- User records carry only `id`, `user_name` and the password hash. The table's other columns play no part in the gate.
- The route wiring in src/things/things-router.js is not part of this model. `requireAuth` guards `/:thing_id` and `/:thing_id/reviews/` there, but not `/`.
