# JWT token sessions: a Dafny model

This project models the token-session state machine of a Go/Gin service that authenticates users with JSON Web Tokens stored in a MongoDB `users` collection. Each stored user record holds at most one current access token and one current refresh token. Four parts act on the store:

- **issuing a pair** (`GenerateToken`, `UpdateAllToken` in `backend/helpers/token.go`): an access token that expires 15 minutes after issue and a refresh token that expires 7 days after issue. Both are HS256-signed and overwrite the user's stored pair.
- **classifying a presented token** (`ValidateToken`): claims, the distinguished `ErrTokenExpired`, or the library's error passed through.
- **the request gate** (`Authenticate` in `middleware/auth.go`): an ordered chain of guards that ends in "next handler", a 401 with a reason, or a panic.
- **the handlers** (`Signup`, `Login`, `RefreshTokenHandler`, `GetUser` in `backend/controllers/userControllers.go`) as transitions of the store.

The central invariant is that only the pair written last for a user is accepted. The gate and the refresh handler both compare the presented token byte for byte with the stored one. Tokens carry no nonce, so two pairs issued for the same user in the same clock second are the same strings.

## Structure

| module (file) | what it holds |
|---|---|
| `Wrappers` (wrappers.dfy) | `Option`, `Result` |
| `Text` (text.dfy) | decimal numerals, length-prefixed fields, `strings.TrimPrefix` |
| `Jwt` (jwt.dfy) | the parts of golang-jwt v3 the core relies on: `SignedString` and `ParseWithClaims` with HMAC as a parameter, the `ValidationError` bit flags |
| `Bcrypt` (bcrypt.dfy) | `GenerateFromPassword` / `CompareHashAndPassword` with the key derivation as a parameter |
| `Models` (models.dfy) | the `User` record and the field rules its `validate` tags declare |
| `Store` (store.dfy) | the `users` collection: a class holding `map<user_id, User>`, the `CountDocuments` / `FindOne` queries, and the invariant `Valid` (keys are user_ids, usernames unique, every document holds a pair) |
| `Helpers` (helpers.dfy) | `backend/helpers/token.go` |
| `Middleware` (middleware.dfy) | `middleware/auth.go` |
| `Controllers` (controllers.dfy) | the handlers: a step function per handler (store and request to new store and response) and a method doing the same steps on the collection, proved equal to it |
| `Sessions` (sessions.dfy) | properties of whole sessions: signup, login, gate and refresh in sequence |

### How the outside world enters
- **Clock.** The clock is a parameter `now` in Unix seconds, and one request reads one second.
- **Fresh values.** The fresh ObjectID hex (`newId`, which must not be a stored key) and bcrypt's random salt (22 characters) are parameters.
- **Cryptography.**
  - HMAC-SHA256 is a function parameter `mac(key, signingInput)`, and so is the bcrypt key derivation `kdf(salt, password)`. Nothing is assumed about either. The properties that hold for every choice are proved, and those that depend on collisions say so (`Helpers.HashPasswordVerifies`).
  - Token text is a signing input (the fixed HS256 header, then a canonical length-prefixed payload), a dot, and the MAC, whose base64url text never holds a dot. That makes two tokens signed with one key equal exactly when their claims are equal (`Jwt.SignedStringInjective`).
- **Database errors.** The one database error the handlers react to differently, the `InsertOne` failure, is a parameter `insertError`.
- **Panics.** A nil pointer dereference in a handler ends with gin's Recovery middleware answering 500. This is modelled as the response `Recovery` (or the gate outcome `Panic`).

### Behaviour worth knowing
The model follows the code as written, including these consequences of it.
- **Login errors.** Login answers an unknown username with 400 "Invalid username. User is not found" and a wrong password with 401 and bcrypt's error value. A client can therefore tell the two apart.
- **Login response.** The login response carries the whole stored record, password hash included.
- **Validation tags.** The `validate` tags in `backend/models/user.go` lack their closing quote, so the validator finds no rule in them. Signup therefore stores a one-character username with no fullname and a one-character password (`Controllers.SignupIgnoresDeclaredRules`). The declared rules are kept as the predicate `Models.DeclaredRules`.
- **Insert failure.** When `InsertOne` fails, Signup writes the error and then the success message as well, because the `if` does not return. gin sends the status of the first write only, so the client receives HTTP 400 with both JSON bodies one after the other, and the 200 of the success message is never sent. The model records every body written, each with the status its call names.
- **Missing fields and long passwords.** Signup checks the username count before touching the password. A body whose username is taken is therefore answered 400 "Username already exists", whatever else it lacks. Otherwise the handler panics (500) and stores nothing in three cases: the password is missing, the password is over 72 bytes (bcrypt refuses it and `HashPassword` panics on the error), or the username is missing. A login body without a password gets 400 when its username is unknown, and panics (500) when the username is found.
- **Token type.** The token type is never checked. A refresh token is refused by the gate only because it differs from the stored access token, and an access token is refused by the refresh handler only because it differs from the stored refresh token.
- **Same-second rotation.** Refresh rotation is single-use except within one clock second. Re-issuing in the same second yields the same token, which then still matches (`Sessions.RefreshReissuesSame`).
- **Expiry before signature.** For a well-formed token of three segments, the library reports an expired claim and a wrong signature together, as two flags OR-ed into one error. `ValidateToken` tests the expired flag first and answers `ErrTokenExpired` whenever it is set. A token whose claims have expired is therefore reported as "token expired" even when its signature is forged (`Middleware.ExpiredBeforeSignature`). A token of four or more segments is malformed to the library, so the gate answers "invalid token" for it whatever its claims (`Middleware.ExtraSegmentInvalid`).

## Model

| member | source | states |
|---|---|---|
| Text.TrimPrefix | middleware/auth.go:34 | the prefix is removed exactly when the string starts with it; otherwise the string is returned unchanged |
| Middleware.PresentedToken | middleware/auth.go:33-34 | the token the gate, and the refresh handler (backend/controllers/userControllers.go:136), validates: the header without a leading "Bearer ", or the header verbatim |
| Jwt.SignedString | backend/helpers/token.go:59-60 | a signed token is its signing input (header and claims), a dot, then the signature |
| Jwt.ParseSignedString | backend/helpers/token.go:118-124 | parsing a signed token gives back exactly its claims, its signing input and its signature |
| Jwt.SignedStringInjective | backend/helpers/token.go:59-66 | two tokens signed with one key are equal if and only if their claims are equal |
| Jwt.ParseWithClaims | backend/helpers/token.go:118-124 | the library yields a valid token exactly when the signature matches and the claims are not expired; every failure is a `ValidationError` with a non-zero flag set; the expired flag is set exactly when the token splits into three segments and its claims are expired, whatever the signature; input that does not split into header, claims and a dot-free signature is malformed |
| Jwt.ExtraSegmentMalformed | backend/helpers/token.go:118-124 | a token whose signature part holds another "." (four or more segments) does not split, and the library answers it as malformed and nothing else |
| Jwt.ParseWithClaimsAccepts | backend/helpers/token.go:118-124 | the library accepts a string with claims `c` if and only if it is the token signed for `c`, in the canonical spelling of its signature, and `c` has not expired |
| Jwt.SignatureMatchesIff | backend/helpers/token.go:118-124 | a string with claims `c` has a matching signature if and only if it is the token signed for `c`, in the canonical spelling of its signature |
| Bcrypt.Utf8Length | backend/helpers/token.go:96 | the byte length bcrypt measures lies between one and four bytes per character |
| Bcrypt.CompareHashAndPassword | backend/helpers/token.go:109 | comparison reports no error exactly when the hash is the derivation of the password under some salt |
| Bcrypt.CompareGenerated | backend/helpers/token.go:109 | a derived hash accepts another password if and only if the derivations collide |
| Bcrypt.GenerateFromPassword | backend/helpers/token.go:96 | hashing fails, with `ErrPasswordTooLong`, exactly when the password is over 72 bytes; otherwise the comparison accepts the hash for that password |
| Store.CountByUsername | backend/controllers/userControllers.go:43 | the count is positive exactly when some document has the username |
| Store.CountAtMostOne | backend/controllers/userControllers.go:43-53 | in a well-formed collection a username is counted at most once |
| Store.FindByUserId | middleware/auth.go:54 | the lookup finds a document exactly when the user_id is stored, and returns that document |
| Store.FindByUsername | backend/controllers/userControllers.go:88 | the lookup finds nothing exactly when the count is zero; what it finds has the username and is the stored document |
| Store.FindByUsernameUnique | backend/controllers/userControllers.go:88 | in a well-formed collection the username lookup returns the one document with that name |
| Helpers.KeyConfig.SetJWTKey | backend/helpers/token.go:23-25 | after `SetJWTKey(k)`, `GetJWTKey()` returns `k` |
| Helpers.KeyConfig.GetJWTKey | backend/helpers/token.go:27-29 | the key last written; it carries no contract of its own, and `SetJWTKey`'s contract states what it returns |
| Helpers.GenerateToken | backend/helpers/token.go:31-72 | the access token, then the refresh token, signed for the claims issued at `now`; it carries no contract of its own, and its properties are the lemmas `GenerateTokenClaims`, `GenerateTokenCollides` and `AccessNeverRefresh` |
| Helpers.GenerateTokenClaims | backend/helpers/token.go:31-72 | the access token decodes to the given id and name, type "access" and expiry now + 15·60; the refresh token decodes to the same id and name, type "refresh" and expiry now + 7·24·3600; both are signed with the key; the refresh expiry is later; the two tokens differ |
| Helpers.GenerateTokenCollides | backend/helpers/token.go:31-72 | two access tokens (and two refresh tokens) are equal if and only if they were issued for the same user id, name and clock second |
| Helpers.AccessNeverRefresh | backend/helpers/token.go:39-55 | no generated access token equals any generated refresh token |
| Helpers.WithTokens | backend/helpers/token.go:80-90 | the `$set` replaces token, refresh token and update time of the document with that user_id, leaves every other field and document alone, and leaves the store unchanged when no document matches |
| Helpers.WithTokensPreservesValid | backend/helpers/token.go:74-93 | overwriting a pair keeps the store well formed and every document holding a pair |
| Helpers.UpdateAllToken | backend/helpers/token.go:74-93 | the collection's new contents are the old contents with the pair overwritten, and the collection invariant is kept |
| Helpers.HashPassword | backend/helpers/token.go:95-106 | a hash exactly when the password pointer is set and the password is at most 72 bytes; otherwise the handler panics (a nil dereference, or the panic on bcrypt's error) |
| Helpers.VerifyPassword | backend/helpers/token.go:108-111 | true exactly when `CompareHashAndPassword` returns no error, paired with that same error |
| Helpers.HashPasswordVerifies | backend/helpers/token.go:95-111 | a password of at most 72 bytes is hashed, and the hash verifies that password, and another password exactly when the derivations collide |
| Helpers.ClassifyParse | backend/helpers/token.go:126-142 | claims exactly when the library returns a valid token; `ErrTokenExpired` exactly when the expired flag is set, whatever other flags; "invalid token" exactly for a parsed but not valid token; every other library error passed through unchanged |
| Helpers.ValidateToken | backend/helpers/token.go:113-143 | "token expired" exactly when the token splits into three segments and its claims are expired; every other failure is the library's error passed through; claims only for the correctly signed unexpired token carrying them; "invalid token" never occurs |
| Helpers.ValidateTokenAccepts | backend/helpers/token.go:115-143 | validation returns claims `c` if and only if the string is the token signed for `c`, in the canonical spelling of its signature, and `c` has not expired |
| Helpers.ValidateSigned | backend/helpers/token.go:115-143 | a signed token validates to its own claims up to its expiry second and is reported expired after it |
| Helpers.ValidateGenerated | backend/helpers/token.go:31-55 | a generated access token validates for 15 minutes after issue and a refresh token for 7 days, then both are reported expired |
| Middleware.Authenticate | middleware/auth.go:19-73 | an empty header gets "authorization header is required"; "token expired" exactly when validation reports expiry; "invalid token" exactly for every other validation failure; a validated token whose user_id is not stored gets "user is not found"; a panic exactly when the validated token's user is stored without an access token; the next handler runs only with validated claims whose user exists and whose stored token is the presented one; every rejection is 401 |
| Middleware.AuthenticateAllows | middleware/auth.go:36-70 | the gate lets claims `c` through if and only if the presented token is the token signed for `c`, `c` is unexpired, and it is the stored access token of `c`'s user; the token type plays no part |
| Middleware.ExpiredBeforeSignature | middleware/auth.go:36-44 | a token that splits into header, claims and a dot-free signature, and whose claims have expired, is answered "token expired", whether or not the signature is right |
| Middleware.ExtraSegmentInvalid | middleware/auth.go:36-48 | a token of four or more segments is answered "invalid token", even when the claims it carries have expired |
| Middleware.SupersededRefused | middleware/auth.go:62-66 | a correctly signed unexpired token that is not the stored access token is refused with "Wrong access token used" |
| Middleware.NoPanicWhenPairsHeld | middleware/auth.go:62 | while every document holds a pair, the gate never dereferences a nil token |
| Controllers.SignupStep | backend/controllers/userControllers.go:22-73 | at most one document is inserted, under the fresh id, and nothing else changes; the last response is the success message exactly when the username is free, the username is present, and the password is present and at most 72 bytes |
| Controllers.SignupRejectsDuplicate | backend/controllers/userControllers.go:42-53 | a taken username is answered 400 "Username already exists" and nothing is inserted |
| Controllers.SignupCreates | backend/controllers/userControllers.go:55-62 | a successful signup inserts exactly one document under the fresh id, holding the bcrypt hash (which verifies the password), the given names, and the pair generated for its own user_id and username |
| Controllers.SignupInsertFailureAlsoReportsSuccess | backend/controllers/userControllers.go:64-70 | a failed insert stores nothing and writes the 400 error body followed by the success body; the client sees status 400, the first one written |
| Controllers.SignupNilFieldPanics | backend/controllers/userControllers.go:55-60 | with a free username, a signup body without password or username panics (500) and stores nothing |
| Controllers.SignupPasswordTooLongPanics | backend/controllers/userControllers.go:55 | with a free username, a password over 72 bytes panics (500) and stores nothing |
| Controllers.SignupIgnoresDeclaredRules | backend/models/user.go:11-13 | a body that breaks every declared field rule is still stored |
| Models.DeclaredRules | backend/models/user.go:11-13 | the rules the `validate` tags declare: username and fullname present with 2 to 100 characters, password present with at least 6; a predicate with no contract of its own, used by `SignupIgnoresDeclaredRules` |
| Controllers.SignupPreservesValid | backend/controllers/userControllers.go:42-64 | signup keeps user_ids as keys, usernames unique and every document holding a pair |
| Controllers.Signup | backend/controllers/userControllers.go:22-73 | the handler on the collection produces the store and responses of `SignupStep` and keeps the collection invariant |
| Controllers.LoginStep | backend/controllers/userControllers.go:75-121 | login never adds or removes a document, and a 200 carries a login body |
| Controllers.LoginUnknownUser | backend/controllers/userControllers.go:88-93 | an unknown username is answered 400 "Invalid username. User is not found" and nothing changes |
| Controllers.LoginNilPasswordPanics | backend/controllers/userControllers.go:88-95 | a login body without a password, for a stored username, panics (500) and changes nothing |
| Controllers.LoginWrongPassword | backend/controllers/userControllers.go:95-100 | a wrong password for a known user is answered 401 with bcrypt's error, never 400, and nothing changes |
| Controllers.LoginIssuesAndStores | backend/controllers/userControllers.go:102-119 | a successful login overwrites exactly that user's pair with the pair generated now, changes no other document, and returns the same pair with the updated record |
| Controllers.LoginPreservesValid | backend/controllers/userControllers.go:102-104 | login keeps the collection invariant |
| Controllers.Login | backend/controllers/userControllers.go:75-121 | the handler on the collection produces the store and response of `LoginStep` and keeps the collection invariant |
| Controllers.RefreshStep | backend/controllers/userControllers.go:123-174 | refresh never adds or removes a document, and any answer other than 200 leaves the store unchanged; an empty header gets 401 "refresh token is required"; a token that fails validation gets 401 "relogin"; a validated token whose user_id is not stored gets 401 "user is not found"; a validated token that differs from its user's stored refresh token gets 401 "wrong refresh token is used"; a panic exactly when the validated token's user is stored without a refresh token; a 200 carries a token pair and happens only for a valid token that is its user's stored refresh token |
| Controllers.RefreshWrongToken | backend/controllers/userControllers.go:158-163 | a correctly signed, unexpired token whose user holds a different refresh token is answered 401 "wrong refresh token is used" and nothing changes |
| Controllers.RefreshRelogin | backend/controllers/userControllers.go:138-144 | every validation failure, expired or not, is answered 401 "relogin" and nothing changes |
| Controllers.RefreshRotates | backend/controllers/userControllers.go:146-172 | a valid token is rotated if and only if it is its user's stored refresh token; the stored pair is then replaced by, and the response carries, the pair generated now |
| Controllers.RefreshPreservesValid | backend/controllers/userControllers.go:165-167 | refresh keeps the collection invariant |
| Controllers.RefreshTokenHandler | backend/controllers/userControllers.go:123-174 | the handler on the collection produces the store and response of `RefreshStep` and keeps the collection invariant |
| Controllers.GetUser | backend/controllers/userControllers.go:208-226 | 200 with the stored document exactly when the user_id is stored, otherwise 404 "User not found" |
| Sessions.SignedNotBearer | middleware/auth.go:34 | a signed token, bare or after "Bearer ", is presented to validation unchanged |
| Sessions.LoginSuccessUser | backend/controllers/userControllers.go:88-100 | a successful login found a stored user with that username whose hash verifies the password |
| Sessions.LoginAccessAccepted | backend/controllers/userControllers.go:102-119 | the access token a login returns passes the gate, with or without "Bearer ", until 15 minutes after the login, with the claims it was issued with |
| Sessions.ReloginSupersedes | middleware/auth.go:62-66 | after a second login, the first access token passes the gate if and only if both logins happened in the same second and it is unexpired; in a later second it is refused as "Wrong access token used" |
| Sessions.RefreshTokenRefusedAtGate | middleware/auth.go:62-66 | the stored refresh token never passes the gate, and while unexpired it is refused as "Wrong access token used" |
| Sessions.AccessTokenRefusedAtRefresh | backend/controllers/userControllers.go:158-163 | the stored access token is never accepted by refresh, and while unexpired it is refused as "wrong refresh token is used" |
| Sessions.PairNotInterchangeable | backend/controllers/userControllers.go:102-119 | of the pair a login returns, the refresh token does not pass the gate and the access token does not refresh |
| Sessions.RefreshRefusesOtherToken | backend/controllers/userControllers.go:158-163 | a signed token that is not its user's stored refresh token is answered 401 "relogin" once expired and 401 "wrong refresh token is used" before, and nothing changes |
| Sessions.RefreshReplayRefused | backend/controllers/userControllers.go:158-167 | after a refresh, presenting the same refresh token again, unless it is the token just issued, is answered 401 "relogin" once expired and 401 "wrong refresh token is used" before, and nothing changes |
| Sessions.RefreshReissuesSame | backend/controllers/userControllers.go:165-167 | the refreshed token equals the presented one if and only if the presented token carries the refresh claims generated in that second |
| Sessions.GateAcceptsOnlyWritten | middleware/auth.go:62-66 | once a pair is written for a user, the gate lets that user through only with the access token of that pair |
| Sessions.RefreshSupersedesAccess | backend/controllers/userControllers.go:165-167 | after a refresh, the gate lets that user through only with the access token just returned |
| Sessions.AliceScenario | backend/controllers/userControllers.go:22-121 | signup succeeds and a repeated signup is refused; a login's token passes the gate; after a login in a later second the first token is refused as "Wrong access token used" |

## Left out
- Token encoding: base64url and JSON are replaced by a canonical length-prefixed text encoding behind the fixed HS256 header. What is kept is that a token is its claims plus a signature and that parsing inverts signing. JSON details are not modelled: unknown fields, the unterminated `token_type` tag (which makes the JSON key `TokenType`), and the `nbf`/`iat` claims, which are zero here and so never checked.
- Jwt.ParseWithClaimsAccepts (and `Jwt.SignatureMatchesIff`, `Helpers.ValidateTokenAccepts`): the model accepts only the canonical spelling of a signature. The library decodes the signature segment with lenient base64url decoding, so a signature text that differs only in the unused low bits of its last character, or that carries `=` padding, decodes to the same MAC and also verifies. The service refuses such a re-spelled token only at its string comparison with the stored token: the gate answers "Wrong access token used" where the model answers "invalid token", and refresh answers "wrong refresh token is used" where the model answers "relogin". Tokens the service stores are always canonical, so the session properties are unaffected.
- Jwt.ParseWithClaims: the key function ignores the `alg` header. The library would therefore also accept a token signed with HS384 or HS512 under the same key. The model knows only the HS256 header and treats any other header as malformed.
- HMAC-SHA256 and bcrypt are function parameters rather than the real algorithms. The bcrypt cost is fixed at the prefix `$2a$10$`. The model follows the bcrypt releases that refuse a password over 72 bytes with `ErrPasswordTooLong`. The derivation's own cut-off at 72 bytes, which lets `CompareHashAndPassword` accept a longer password that shares the first 72 bytes, is a property of the derivation parameter and is not modelled.
- Bcrypt.Utf8Length: a password is measured as the UTF-8 encoding of its characters. Byte strings that are not valid UTF-8 do not arise, because the request body is decoded from JSON.
- Helpers.GenerateToken: the panic on a signing error is not modelled, because HS256 signing with a byte-slice key does not fail in golang-jwt v3.
- `User`, the stored record (backend/models/user.go:9-19), is the datatype `Models.User`. It is a record without operations, so it has no row of its own in the table above.
- `time.Now()` is one integer `now` per request. The handlers read the clock several times, so `updated_at` and the two expiries may in fact fall in different seconds. Expiries are natural numbers (times before 1970 are not modelled).
- Database I/O errors other than the `InsertOne` failure are not modelled: the `CountDocuments` error, the ignored `UpdateOne` error, and the re-read after login failing. Context timeouts and cancellation are not modelled either. The store is sequential, so the race between Signup's count and its insert, and last-writer-wins between concurrent logins, are not modelled.
- `BindJSON` failures (400 with the decoder's message) are not modelled; requests arrive already decoded, with absent fields as `None`.
- `GetUsers` is not modelled: it is cursor iteration over the whole collection with no session logic.
- The ObjectID `_id` is kept only as its hex form `user_id`.
- `main.go`, `backend/config/database.go`, `routes/routes.go` and the frontend are not part of this model (start-up, connection, routing and UI code). `/users` and `/user/:id` sit behind the gate; the model covers the gate's decision, not the routing.
- Controllers.LoginStep: its own contract states only that no document is added or removed and that a 200 carries a login body. Its outcomes are stated by `LoginUnknownUser`, `LoginWrongPassword` and `LoginIssuesAndStores`.
