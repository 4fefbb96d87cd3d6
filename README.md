# Chirpy in Dafny

Chirpy is a small microblogging server written in Go. Users sign up, log in to get a short-lived access
token and a long-lived refresh token, post short "chirps", list, read and delete chirps, and revoke refresh
tokens. A file server in front of it counts visits. This project models the logic of its core and proves
properties about it:

- **The record store** (`database.dfy`, `database_props.dfy`). One document holds three collections: chirps
  keyed by id, users keyed by email, and revoked refresh tokens keyed by the token string. It is the field
  `doc` of the class `DB`. The repository methods `CreateChirp`, `GetChirp`, `GetChirps`, `CreateUser`,
  `RevokeToken` and `IsTokenRevoked` read and reassign that field as the Go code loads and saves the file.
  - Each method that changes the document is proved equal to a function on documents (`InsertChirp`,
    `InsertUser`, `RecordRevocation`), and `IsTokenRevoked` answers `IsRevoked`. The properties are lemmas
    about those functions.
  - `GetChirp` and `GetChirps` are described directly against the stored chirps (`ChirpMap()`): `GetChirp`
    finds a chirp exactly when its key is stored, and `GetChirps` returns one element per stored key, listed
    by a ghost sequence of the keys.
  - A collection the file does not mention is a Go `nil` map. It is `None` here and reads as empty.
  - New ids are the collection size plus one. The new id is fresh exactly when size + 1 is not already a key.
    While the ids are exactly `1..n` (part of the invariant `Consistent`) it always is, and
    `CreateChirpOverwriteExample` shows an overwrite when they are not. Every chirp stays stored under its
    own id whatever the ids are (`ChirpsKeyedById`), so the facts that rest on that alone hold for any store.
- **Chirp text** (`chirp_text.dfy`). This covers the profanity mask `cleanChirpBody` (split on single spaces,
  whole-word and case-insensitive) and the 140-byte limit, where a Go string's `len` is its UTF-8 byte count.
- **Sorting** (`chirp_sort.dfy`). `sortChirpsById` sorts in place on an array, descending for `desc` and
  ascending for anything else.
- **Decimal conversion** (`decimal.dfy`). These are `strconv.Atoi`, including its 64-bit range check, and
  `strconv.Itoa`. The user id travels through a token's subject claim in this form.
- **Tokens and handlers** (`tokens.dfy`, `responses.dfy`, `auth.dfy`, `user_handlers.dfy`,
  `chirp_handlers.dfy`). Each HTTP handler is a function that returns an `Outcome`: the status it answers
  with and its effect, which is the one state-changing store call or token issue it makes.
  - A store read is modelled by passing the document `d`: `RefreshAuth` checks revocation there, and
    `GetChirp` and `DeleteChirp` look the chirp up there. `GetChirp` changes nothing and returns the chirp or
    the error status.
  - The `parse` parameter stands for verifying and decoding a token string. The session and account
    handlers call the JWT library's `ParseWithClaims` for this. The chirp handlers call `parseJWT`, which is
    not part of this model and is taken to be that same parser (see "## Left out").
  - Results of store calls whose code is not part of this model are parameters too.
  - `GetChirps` is a method, because it composes the store read with the in-place sort.
- **Visit counter** (`metrics.dfy`). The class `ApiConfig` holds `fileserverHits`, which the middleware
  increments and the reset handler zeroes. The metrics handler reports `Hits: n`.

Two behaviours of the code are worth stating:
- `RevokeAuth` answers 500 to any token the parser rejects, an expired refresh token included. Such a token
  therefore cannot be revoked.
- The user store is the version whose `CreateUser` takes only an email and whose `User` has only an id and an
  email. The handlers call a later store version (with passwords, updates and upgrades) that is not part of
  this model, so those calls appear as effects.

## Model

| member | source | states |
|---|---|---|
| Database.DB.CreateChirp | database/chirps.go:12-31 | the new document and chirp are `InsertChirp` of the old document (nil map initialised, id = size + 1, stored under its id); on a consistent store the id is fresh and consistency is kept; chirps stay keyed by their ids on any store |
| Database.DB.GetChirp | database/chirps.go:34-48 | `found` exactly when the id is a key (so false for a nil or empty map); a found chirp is the stored one and, while chirps are keyed by their ids, carries that id; otherwise the zero chirp |
| Database.DB.GetChirps | database/chirps.go:51-67 | the elements are the stored chirps each read under its own key exactly once (a ghost `order` lists the keys, each stored id once), so one element per stored chirp; while chirps are keyed by their ids, the ids are pairwise distinct |
| Database.DB.CreateUser | database/users.go:17-41 | the new document and result are `InsertUser` of the old document; consistency (ids distinct and in 1..n, users keyed by email) is kept |
| Database.DB.RevokeToken | database/tokens.go:9-27 | the new document is `RecordRevocation(old, token, now)`; consistency is kept |
| Database.DB.IsTokenRevoked | database/tokens.go:33-45 | revoked exactly when the token is a key of the ledger |
| Database.InsertChirpFreshWhenDense | database/chirps.go:21-24 | while chirp ids are exactly 1..n, the size + 1 id is not taken, the map grows by one and ids become exactly 1..n+1 |
| Database.InsertChirpKeepsKeyedById | database/chirps.go:22-24 | a create keeps every chirp stored under its own id, whatever ids were taken |
| Database.InsertChirpKeepsConsistent | database/chirps.go:17-25 | creating a chirp keeps the store consistent |
| Database.InsertUserKeepsConsistent | database/users.go:23-33 | creating a user keeps the store consistent |
| DatabaseProperties.CreateChirpStoresGivenFields | database/chirps.go:21-24 | the new chirp has the given body and author and id n + 1, is stored under that id, and users and ledger are untouched |
| DatabaseProperties.CreateChirpKeepsOtherChirps | database/chirps.go:24-25 | the keys grow by at most the new id and every other stored chirp is unchanged |
| DatabaseProperties.FirstTwoChirpIds | database/chirps.go:21 | on an empty store the first chirp gets id 1, the second id 2, and both are stored |
| DatabaseProperties.CreateChirpOverwritesIffIdTaken | database/chirps.go:21-24 | the map keeps its size exactly when the new id was taken and grows by one exactly when it was not |
| DatabaseProperties.CreateChirpOverwriteExample | database/chirps.go:21-24 | with chirp 2 stored alone, the next chirp also gets id 2 and the old chirp 2 is lost |
| DatabaseProperties.ChirpHistoryStaysDense | database/chirps.go:21-24 | any sequence of creates from an empty store leaves ids exactly 1..n, with n the number of creates |
| DatabaseProperties.CreateUserRejectsUsedEmail | database/users.go:27-29 | `EmailInUse` exactly when the email is a key, and a refused create leaves the document unchanged |
| DatabaseProperties.CreateUserStoresUnderEmail | database/users.go:31-33 | a new email gets id n + 1, is stored under that email as the returned user, the map grows by one, chirps and ledger untouched |
| DatabaseProperties.SecondSignUpWithSameEmailFails | database/users.go:27-31 | the first sign-up gets id 1; a second with the same email fails and changes nothing |
| DatabaseProperties.EmailMatchIsCaseSensitive | database/users.go:27 | an email differing only in letter case is a new user |
| DatabaseProperties.CreateUserKeepsIdsUnique | database/users.go:31-33 | creating a user never gives two users the same id |
| DatabaseProperties.RevokedAfterRevoke | database/tokens.go:23-25 | after a revocation the token reads as revoked |
| DatabaseProperties.RevokeIsIdempotent | database/tokens.go:19-21 | revoking twice equals revoking once (first timestamp kept); revoking a revoked token changes nothing |
| DatabaseProperties.RevokeAddsOnlyThatToken | database/tokens.go:15-25 | exactly the one key is added, other entries keep their timestamps, a new entry is stamped `now`, chirps and users untouched |
| DatabaseProperties.NotRevokedWhenAbsent | database/tokens.go:39-44 | not revoked for a nil or empty ledger; revoked exactly when the token is a key |
| DatabaseProperties.RevocationIsPermanent | database/tokens.go:23 | a later revocation of any token leaves a revoked token revoked |
| Decimal.Itoa | apiConfig/apiConfig.go:404 | the text is non-empty and starts with '-' exactly for negative numbers; the rest is all digits with no leading zero (a lone "0" for zero) |
| Decimal.Atoi | apiConfig/auth.go:114-118 | a parsed value lies in the 64-bit range and comes from non-empty text |
| Decimal.ParseItoa | apiConfig/apiConfig.go:404 | parsing what `Itoa` printed gives back the number, for every integer |
| Decimal.AtoiItoa | apiConfig/auth.go:109-118 | `Atoi(Itoa(n)) == n` for every 64-bit n: a subject written at issue reads back as the same user id |
| Tokens.TokenKinds | apiConfig/auth.go:14-19 | access tokens live 3600 s, refresh tokens 5,184,000 s, and the two issuer tags differ |
| Tokens.IssuedClaims | apiConfig/apiConfig.go:397-406 | an issued token carries the given issuer, issued-at `now`, expiry `timeoutSeconds` later, and a subject that reads back as the user id |
| Tokens.TrimBearerRemovesOnePrefix | apiConfig/auth.go:77 | `Bearer ` + t becomes t (only one prefix is removed); a header without the prefix is used as it is |
| Auth.Login | apiConfig/auth.go:21-61 | 200 exactly when the credentials validated, then both tokens are issued for that user; otherwise 401 and no effect |
| Auth.RefreshAuth | apiConfig/auth.go:63-125 | 200 exactly when the header is present, the token parses, is valid, has the refresh issuer, is not in the ledger and has a numeric subject; only then is an access token issued, otherwise nothing happens: 401 without a header, 500 for a token that does not parse, 401 for an invalid, non-refresh or revoked token, 500 for a non-numeric subject |
| Auth.RevokeAuth | apiConfig/auth.go:127-161 | the ledger receives the trimmed token exactly when the header is present, the token parses and has the refresh issuer (validity not consulted), then 200; otherwise no effect: 401 without a header, 500 for a token that does not parse, 401 for another issuer |
| Auth.LoginIssuesBothTokens | apiConfig/auth.go:49-60 | login issues an access-issuer token expiring in an hour and a refresh-issuer token expiring in sixty days, both for the user's id |
| Auth.MissingHeaderIsUnauthorized | apiConfig/auth.go:71-75 | no Authorization header gives 401 and no effect, for refresh and for revoke |
| Auth.UnparsableTokenIsServerError | apiConfig/auth.go:78-84 | a token the parser rejects gives 500, for refresh and for revoke |
| Auth.RefreshRejectsOtherIssuers | apiConfig/auth.go:90-98 | a token whose issuer is not the refresh issuer (an access token) gets 401 from refresh whatever the ledger holds |
| Auth.RevocationCheckedAfterIssuer | apiConfig/auth.go:86-107 | for an invalid or non-refresh token the ledger makes no difference to the answer |
| Auth.RefreshKeepsSubject | apiConfig/auth.go:109-124 | a successful refresh issues an access-issuer token expiring an hour later whose subject reads as the same user id |
| Auth.RevokedTokenCannotRefresh | apiConfig/auth.go:99-107 | once revoke has recorded a token, refresh with the same header answers 401 while the token still parses as it did at revocation |
| Auth.RevokedTokenNeverRefreshes | apiConfig/auth.go:78-107 | once revoke has recorded a token, refresh with the same header never answers 200, whatever the token parses to later (after expiry the parser rejects it) |
| Auth.RevokeNeedsParsableToken | apiConfig/auth.go:139-145 | a token the parser rejects (expired, badly signed) is never recorded |
| UserHandlers.CreateUser | apiConfig/users.go:15-38 | the store is asked to create the user; 201 exactly when it succeeds, every store error (email in use included) is 500 |
| UserHandlers.UpdateUser | apiConfig/users.go:41-99 | an update is made exactly when the header is present, the token parses, has the access issuer and a numeric subject; the user updated is that subject; 200 exactly when the update succeeds, 500 when it fails; 401 without a header, for a token that does not parse or for a non-access issuer; 500 for a non-numeric subject |
| UserHandlers.UpgradeUser | apiConfig/users.go:101-133 | events other than `user.upgraded` are 200 with no effect; otherwise the given user is upgraded, 200 on success, 404 for an unknown user, 500 for other errors |
| UserHandlers.UpdateNeedsAccessToken | apiConfig/users.go:51-73 | no header, an unparsable token or a non-access issuer (a refresh token) gives 401 and no effect |
| UserHandlers.SignUpWithUsedEmailIsServerError | apiConfig/users.go:32-35 | signing up with a registered email is answered with 500 |
| UserHandlers.UpdateTargetsTokenOwner | apiConfig/users.go:74-93 | the user updated is the one the access token was issued for |
| ChirpText.Split | apiConfig/chirps.go:218 | at least one piece, and no piece contains a space |
| ChirpText.JoinSplit | apiConfig/chirps.go:218-228 | joining the pieces of a split gives the text back |
| ChirpText.SplitJoin | apiConfig/chirps.go:218-228 | splitting a join of space-free words gives the words back |
| ChirpText.MaskWords | apiConfig/chirps.go:221-227 | as many words as the input, each masked on its own |
| ChirpText.CleanChirpBody | apiConfig/chirps.go:214-229 | the loop computes `Cleaned(original)`: each word replaced by `****` exactly when profane, joined with single spaces (the older handler sets have the same code at apiConfig/apiConfig.go:379-394, apiConfig.go:190-205) |
| ChirpText.MaskIsNotProfane | apiConfig/chirps.go:216-223 | `****` is not profane and no profane word equals it |
| ChirpText.CleanedWords | apiConfig/chirps.go:218-228 | the cleaned text splits into the masked original words, so the word count is kept, empty words included |
| ChirpText.CleanIsIdempotent | apiConfig/chirps.go:216-228 | cleaning twice equals cleaning once |
| ChirpText.CleanUnchangedIffNoProfanity | apiConfig/chirps.go:221-228 | a text comes back unchanged exactly when none of its words is profane |
| ChirpText.WholeWordsCaseInsensitive | apiConfig/chirps.go:222-225 | `KerFuffle` and `SHARBERT` are masked; `kerfuffle!` is kept |
| ChirpText.CleanTestTextUnchanged | apiConfig/apiConfig_test.go:5-12 | "This is only a test" comes back unchanged |
| ChirpText.CleanTestTextMasked | apiConfig/apiConfig_test.go:14-21 | "This is only a kerfuffle" comes back as "This is only a ****" |
| ChirpText.Utf8LenBounds | apiConfig/chirps.go:45 | a text has between one and four bytes per character, and exactly one for ASCII |
| ChirpText.CleanedNotLonger | apiConfig/chirps.go:45-51 | cleaning never adds bytes, so an accepted body is stored within 140 bytes |
| ChirpSort.SortById | apiConfig/chirps.go:138-146 | the array ends sorted in the chosen direction, as a permutation of what it held, keeping distinct ids distinct |
| ChirpSort.SortChirpsById | apiConfig/chirps.go:131-147 | sorted descending for `desc` and ascending for any other value (`""` included), a permutation of the input, strictly ordered when ids are distinct |
| ChirpSort.SortedDistinctIsStrict | apiConfig/chirps.go:131-147 | sorted with no repeated id means strictly sorted |
| ChirpHandlers.CreateChirp | apiConfig/chirps.go:17-68 | a chirp is stored exactly when the header is present, the token parses, the body is at most 140 bytes and the subject is numeric; it is the cleaned body by that subject, answered 201; otherwise nothing is stored: 401 without a header, 500 for a token that does not parse, 400 for a body over 140 bytes, 500 for a non-numeric subject |
| ChirpHandlers.CreateChirpUnattributed | apiConfig/apiConfig.go:63-88 | 400 exactly for a body over 140 bytes, which is not stored; otherwise 201 and the cleaned body is stored (the older handler sets have the same code at apiConfig.go:60-85) |
| ChirpHandlers.ChooseChirpQuery | apiConfig/chirps.go:113-128 | all chirps exactly when the author parameter is not a 64-bit number (the empty string included), otherwise that author's chirps |
| ChirpHandlers.GetChirps | apiConfig/chirps.go:95-110 | the chosen chirps sorted in the requested direction, as a permutation of what was fetched: the author's chirps, or every stored chirp once each (ghost `keys` list the stored keys, each once); with all chirps from a store whose chirps are keyed by their ids, strictly ordered |
| ChirpHandlers.GetChirp | apiConfig/chirps.go:71-89 | the stored chirp exactly when the id is numeric and stored; 400 for a non-numeric id, 404 otherwise |
| ChirpHandlers.DeleteChirp | apiConfig/chirps.go:150-212 | a delete is made exactly when the id is numeric and stored, the header is present, the token parses and its subject is the chirp's author; 200 exactly when the store reports it deleted, 500 otherwise; no delete and 400 for an empty id, 500 for a non-numeric id, 404 for an absent chirp, 401 without a header, 500 for a token that does not parse or a non-numeric subject, 403 for another user |
| ChirpHandlers.LengthLimitIsInclusive | apiConfig/chirps.go:45-48 | a body over 140 bytes is 400 and not stored; one of exactly 140 bytes is stored, by both create handlers |
| ChirpHandlers.StoredBodyFits | apiConfig/chirps.go:45-62 | the body a create stores is at most 140 bytes |
| ChirpHandlers.AuthorFilterReadsIssuedIds | apiConfig/chirps.go:114-121 | an issued user id filters by that author; `""` or a non-number lists all chirps |
| ChirpHandlers.MissingChirpIsNotFound | apiConfig/chirps.go:164-172 | a chirp that does not exist is 404 whatever the header and token, and nothing is deleted |
| ChirpHandlers.OnlyAuthorMayDelete | apiConfig/chirps.go:185-199 | a token whose subject is another user gets 403 and deletes nothing |
| ChirpHandlers.DeletesRequestedChirp | apiConfig/chirps.go:201 | while chirps are keyed by their ids, the chirp deleted is the one the path names |
| ChirpHandlers.RefreshTokenAuthorisesChirpWrites | apiConfig/chirps.go:22-62 | creating and deleting chirps accept a refresh-issuer token, which `UpdateUser` refuses |
| Metrics.LastReset | apiConfig/apiConfig.go:57-61 | the position of the last reset: a reset there and only requests after it |
| Metrics.ApiConfig.constructor | apiConfig/apiConfig.go:22-24 | the count starts at 0 |
| Metrics.ApiConfig.MiddlewareIncrementMetrics | apiConfig/apiConfig.go:26-31 | each request adds exactly 1 (the older handler sets have the same code at apiConfig.go:23-28) |
| Metrics.ApiConfig.ApiMetrics | apiConfig/apiConfig.go:33-40 | a body exactly for GET; it is `Hits: ` followed by text that parses back to the current count (the older handler sets have the same code at apiConfig.go:30-37) |
| Metrics.ApiConfig.ResetMetrics | apiConfig/apiConfig.go:57-61 | the count becomes 0 (the older handler sets have the same code at apiConfig.go:54-58) |
| Metrics.ReplayCountsSinceLastReset | apiConfig/apiConfig.go:26-61 | after any run of requests and resets the count is the number of requests since the last reset, or the start plus all requests when there was none |
| Metrics.CountFromStart | apiConfig/apiConfig.go:22-31 | from a fresh configuration n requests give n, and a final reset gives 0 |

## Left out

- File I/O, JSON encoding and decoding, and the read/write mutex of the store (`database/db.go`) are not
  modelled. Load and save are a read and an assignment of `DB.doc`, and the store's I/O errors do not arise.
  The handlers' JSON-decoding error paths (500, or 400 in `UpgradeUser`) are not modelled either.
- Concurrency is not modelled: neither the load/save race between requests nor the unsynchronised
  `fileserverHits++`. Everything is sequential.
- JWT signing and verification (HMAC-SHA256) are a foreign library. Issuing a token is the set of claims it
  carries (`Tokens.Claims`), and parsing is the `parse` parameter. A signing error (500) cannot arise.
- `parseJWT`, which `CreateChirp` and `DeleteChirp` call (apiConfig/chirps.go:28, 180), is not part of this
  model. It is taken to be the same parser as `jwt.ParseWithClaims` and to check no issuer.
  `ChirpHandlers.RefreshTokenAuthorisesChirpWrites` rests on that: if `parseJWT` checked the issuer, a
  refresh token would not authorise chirp writes.
- `createSignedJWT` reads the clock twice, once for the expiry and once for the issue time
  (apiConfig/apiConfig.go:402-403). The model reads it once, so expiry minus issue time is exactly the timeout.
- The clock is the `now` parameter. Times are whole seconds, where the source uses nanosecond `time.Time`
  values in the ledger.
- Store calls whose code is not part of this model are parameters or effects, and their behaviour is not
  invented: `ValidateCredentials`, the two-argument `CreateUser`, `UpdateUser`, `UpgradeUser`, `DeleteChirp`,
  `GetUserChirps` and password hashing.
- `CreateChirp` (apiConfig/chirps.go:64-66) and the older create handlers lack a `return` after a store
  error. The client then gets status 500 (net/http ignores the second status), with the error JSON followed by
  the zero chirp's JSON in the body. With store errors out of scope, this reply is not modelled.
- `RevokeAuth` (apiConfig/auth.go:146-149) also lacks a `return`, after `GetIssuer` fails. `GetIssuer` on
  registered claims never fails, so that path is not modelled.
- ChirpText.IsProfane: lower-cases ASCII letters only. Go's `strings.ToLower` also maps other letters, for
  example the Kelvin sign U+212A to `k`, so a word spelled with it is masked by the source but not by the model.
- Metrics.ApiConfig.MiddlewareIncrementMetrics: the count is an unbounded integer. The source's 64-bit `int`
  wraps after 2^63 - 1 requests.
- `AdminApiMetrics` (an HTML page showing the same count), `NewAPIConfig`'s store and secret fields,
  `respondWithError` and `respondWithSuccess`, and the routing, CORS and environment setup of `main.go` are
  HTTP plumbing and are not modelled.
- `GetChirps` (database/chirps.go:62-64) returns map entries in Go's randomised iteration order. The model
  picks keys in an arbitrary order, and its contract promises no order.
