# Auth_Lab5 token lifecycle, modelled in Dafny

This project models the token lifecycle engine of Auth_Lab5, a small Express/SQLite service. The service issues a JWT access/refresh pair per login. Each pair is bound to a list of allowed client addresses. The model covers four parts:

- **IP matcher** (`utils/ipUtils.js`): loopback normalisation, exact-or-wildcard scope entries, and the choice of client address from `X-Forwarded-For`, `X-Real-IP` or the socket.
- **Token store** (`db/tokenRepository.js`): the `tokens` table is a sequence of rows, and every repository call is a pure transition or query over it, on an abstract clock counted in seconds. The UNIQUE access and refresh columns and the AUTOINCREMENT id become the store invariant `Valid`.
- **Session authority** (`auth/jwtService.js`):
  - `createTokenPair` revokes every earlier row of the user, then inserts the new one.
  - `refreshTokenPair` verifies, checks the token kind, looks the row up, checks the address, then reissues.
  - `verifyToken` and `validateTokenWithIp` are modelled as well.
  - JWT signing is abstract. A ledger maps every token text the authority signed to its secret, payload and expiry. Only recorded texts verify, and only under their own secret and before their expiry. A fresh text stands for the random `jti`.
- **Bearer gate** (`middleware/authMiddleware.js`): `authenticateWithIp` gives 401/403/500 or accepts. `optionalAuth` never blocks.

The module `Wildcard` models the regular expression that a scope entry such as `192.168.1.*` becomes:

- the text is produced by the two `replace` calls;
- a small parser reads it as anchored regex syntax (literal characters, `\.`, `.`, postfix `*`);
- a matcher applies JavaScript's meaning of `.`, which is any character except a line terminator.

For entries whose only syntax characters are `.` and `*`, this pipeline is proved equal to a recursive glob match. In that glob, `*` matches any run of characters, dots included, that holds no line terminator.

`Lifecycle` composes everything into a state machine of logins, refreshes, logouts, revocations and sweeps. It proves that no run from an empty table ever leaves a user with two live rows.

Files: `results.dfy`, `js_text.dfy`, `wildcard.dfy`, `ip_utils.dfy`, `signer.dfy`, `token_store.dfy`, `session.dfy`, `session_properties.dfy`, `lifecycle.dfy`, `auth_middleware.dfy`.

## Model

| member | source | states |
|---|---|---|
| JsText.Trim | utils/ipUtils.js:14 | `trim()` strips exactly the maximal leading and trailing runs of ECMAScript white space and line terminators; the rest is the untouched middle of the input |
| JsText.FirstField | utils/ipUtils.js:14 | `split(',')[0]` is the longest prefix free of the separator, and it stops at the first separator when there is one |
| JsText.LeadingWhitespace | utils/ipUtils.js:14 | the leading run that `trim()` removes is all white space and is maximal |
| JsText.TrimEnd | utils/ipUtils.js:14 | the trailing run that `trim()` removes is all white space, and what remains does not end in white space |
| IpUtils.NormalizeIp | utils/ipUtils.js:62-70 | `::1` and `::ffff:127.0.0.1` become `127.0.0.1`; any other `::ffff:`-prefixed address loses exactly that 7-character prefix; every other input is returned unchanged |
| IpUtils.NormalizeToLoopback | utils/ipUtils.js:63-65 | the result is `127.0.0.1` exactly for the two loopback aliases and `127.0.0.1` itself |
| IpUtils.NormalizeNotIdempotent | utils/ipUtils.js:66-69 | normalisation is not idempotent: some address changes again when normalised a second time |
| IpUtils.NormalizeFixedPoint | utils/ipUtils.js:62-70 | a result that is neither `::1` nor `::ffff:`-prefixed is a fixed point |
| IpUtils.CollapseKeepsMappedAddresses | utils/ipUtils.js:38 | the inline collapse in `isIpAllowed` keeps an IPv4-mapped address other than the loopback one, which `normalizeIp` would strip |
| IpUtils.CollapseLoopback | utils/ipUtils.js:38 | agrees with `normalizeIp` on which addresses count as loopback and on every address not written with the `::ffff:` prefix; it changes nothing but the two loopback aliases |
| IpUtils.EntryMatches | utils/ipUtils.js:42-53 | an entry always matches its own text; an entry without `*` matches nothing else; an entry with `*` whose other syntax characters are dots matches exactly what its glob matches |
| IpUtils.EntryMatchesMeaning | utils/ipUtils.js:42-53 | an entry without `*` matches only the equal address; an entry with `*` matches exactly the addresses its glob matches as a whole |
| IpUtils.PrefixEntryMatches | utils/ipUtils.js:46-51 | `prefix*` matches exactly the addresses that start with the prefix and continue without a line terminator |
| IpUtils.SubnetWildcardExamples | utils/ipUtils.js:46-51 | `192.168.1.*` admits `192.168.1.42` and the bare `192.168.1.`, and refuses `192.168.2.1` |
| IpUtils.StarEntryAdmitsAll | utils/ipUtils.js:47-51 | the lone entry `*` admits every address without a line terminator |
| IpUtils.ScopeAdmits | utils/ipUtils.js:40-54 | a list admits an address exactly when some entry matches it |
| IpUtils.ScopeAdmitsIgnoresOrder | utils/ipUtils.js:40-54 | the verdict depends only on which entries occur, not on their order or their duplicates |
| IpUtils.IsIpAllowed | utils/ipUtils.js:32-55 | an absent or empty list admits every address; otherwise some entry must match the address after only the two loopback forms are collapsed |
| IpUtils.IsIpAllowedVersusScope | utils/ipUtils.js:32-35 | for a non-mapped address and a non-empty list, `isIpAllowed` and the token check agree; on the empty list `isIpAllowed` admits and the token check refuses |
| IpUtils.GetClientIp | utils/ipUtils.js:10-24 | a non-empty `X-Forwarded-For` gives its trimmed first comma-separated field, which holds no comma; otherwise a non-empty `X-Real-IP`; otherwise the socket address |
| Wildcard.ReplaceAll | utils/ipUtils.js:48 | a global `replace` removes every occurrence of the replaced character when the replacement does not contain it, and adds no other characters |
| Wildcard.ReplaceAllAppend | utils/ipUtils.js:48 | a global replace of a character distributes over concatenation |
| Wildcard.RegexSource | utils/ipUtils.js:48 | the two chained replaces, dots first, equal a translation of one character at a time: `.` to `\.`, `*` to `.*`, anything else to itself |
| Wildcard.TwoPassesByChar | utils/ipUtils.js:48 | the `.` that the second replace introduces is never escaped by the first, so the passes compose character by character |
| Wildcard.RegexSourceHead | utils/ipUtils.js:48 | the regex text never begins with a dangling `*` |
| Wildcard.ParseAtom | utils/ipUtils.js:49 | reading one regex atom consumes at least one character, and the atom's canonical text followed by what is left is the input |
| Wildcard.ParseRegex | utils/ipUtils.js:49 | a regex text the parser accepts is exactly the canonical text of the terms it yields |
| Wildcard.ParseRenderedAtom | utils/ipUtils.js:49 | an atom's canonical text is read back as that atom, whatever follows |
| Wildcard.RenderHead | utils/ipUtils.js:49 | canonical text never begins with a quantifier, since a literal `*` is written escaped |
| Wildcard.ParseRenderedTerm | utils/ipUtils.js:49 | one rendered term in front of parsed text parses to that term followed by the rest |
| Wildcard.RenderParses | utils/ipUtils.js:49 | parsing the canonical text of any term sequence gives the sequence back, so parser and renderer are inverse |
| Wildcard.ParseTranslated | utils/ipUtils.js:48-49 | the regex text of one pattern character, in front of an already parsed text, parses to exactly that character's term |
| Wildcard.ParseRegexSource | utils/ipUtils.js:48-49 | for a pattern whose only syntax characters are `.` and `*`, the regex text parses to the compiled glob |
| Wildcard.GlobStar | utils/ipUtils.js:48-50 | a glob star matches some prefix free of line terminators, and the rest of the pattern matches the remainder |
| Wildcard.CompileIsGlob | utils/ipUtils.js:49-50 | the anchored regex matcher on the compiled pattern accepts exactly the strings the glob accepts |
| Wildcard.RegexTest | utils/ipUtils.js:48-50 | `new RegExp('^' + pattern + '$').test(s)` holds exactly when the glob matches `s`, for patterns whose only syntax characters are `.` and `*` |
| Wildcard.GlobSelf | utils/ipUtils.js:48-50 | every pattern matches its own text |
| Wildcard.GlobLiteralHead | utils/ipUtils.js:48-50 | a star-free literal head must match the address's prefix exactly |
| Wildcard.GlobLoneStar | utils/ipUtils.js:48-50 | `*` alone matches exactly the strings free of line terminators |
| Wildcard.PrefixWildcard | utils/ipUtils.js:48-50 | `lit*` matches exactly the strings that start with `lit` and continue without a line terminator |
| Signer.Sign | auth/jwtService.js:23-25 | signing records one new text, bound to its secret, its claims and an expiry of issue time plus lifetime; every earlier text keeps its entry |
| Signer.Verify | auth/jwtService.js:65 | verification succeeds exactly for a recorded text, under its own secret, before its expiry, and returns the signed payload; otherwise it fails with `jwt expired` or `invalid signature` |
| Signer.SignThenVerify | auth/jwtService.js:23-25 | a freshly signed text verifies under its secret within its lifetime and yields the signed claims |
| Signer.OtherSecretRejects | auth/jwtService.js:65 | a text signed with one secret is refused under any other secret |
| Signer.SignKeepsOtherVerdicts | auth/jwtService.js:37-39 | signing one text changes the verdict on no other text |
| TokenStore.SaveTokens | db/tokenRepository.js:3-13 | the insert succeeds exactly when neither token is already stored, failing otherwise with the UNIQUE violation; on success it appends one non-revoked row stamped with `now`, leaves every earlier row unchanged, returns a fresh id and keeps the table constraints |
| TokenStore.SavedScopeReadBack | db/tokenRepository.js:3-43 | the allowed list that both lookups read back right after a save is the list that was saved |
| TokenStore.FindLive | db/tokenRepository.js:18-43 | a lookup returns a stored, non-revoked row holding the token in the given column, or nothing when every row holding it is revoked |
| TokenStore.FindByAccessToken | db/tokenRepository.js:18-28 | the result is a stored, non-revoked row with this access token; there is none exactly when every row holding it is revoked |
| TokenStore.FindByRefreshToken | db/tokenRepository.js:33-43 | the result is a stored, non-revoked row with this refresh token; there is none exactly when every row holding it is revoked |
| TokenStore.RevokeWhere | db/tokenRepository.js:48-67 | the UPDATE revokes exactly the selected rows, leaves all others as they were, and reports how many it selected |
| TokenStore.CountSelected | db/tokenRepository.js:48-67 | the change count is at most the table size, and it is zero exactly when no row is selected |
| TokenStore.RevokeWhereKeepsValid | db/tokenRepository.js:48-67 | revocation keeps the primary-key and UNIQUE constraints |
| TokenStore.RevokeAllUserTokens | db/tokenRepository.js:48-53 | afterwards the user has no live row; other users' rows are unchanged; rows differ at most in their flag; the count is zero exactly when the user had no live row; the constraints are kept |
| TokenStore.RevokeThenSaveKeepsInvariants | db/tokenRepository.js:3-53 | revoke-all followed by an insert for the same user keeps the constraints and the one-live-row-per-user invariant |
| TokenStore.RevokeAllIdempotent | db/tokenRepository.js:48-53 | a second revoke-all for the same user changes nothing and reports 0 |
| TokenStore.RevokeToken | db/tokenRepository.js:58-60 | exactly the rows with this id are revoked; under the primary key that is at most one |
| TokenStore.RevokeByRefreshToken | db/tokenRepository.js:65-67 | exactly the rows with this refresh token are revoked; under the UNIQUE column that is at most one |
| TokenStore.CountAtMostOne | db/tokenRepository.js:58-67 | a count above one implies two distinct selected rows |
| TokenStore.KeyedUpdateChangesAtMostOne | db/tokenRepository.js:58-67 | under the table constraints, an update keyed by id or refresh token changes at most one row |
| TokenStore.ActiveSummaries | db/tokenRepository.js:72-79 | the selected summaries are exactly those of the user's non-revoked rows whose access expiry lies after `now` |
| TokenStore.InsertNewestFirst | db/tokenRepository.js:77 | inserting into a newest-first list keeps it ordered and adds exactly that element |
| TokenStore.SortNewestFirst | db/tokenRepository.js:77 | `ORDER BY created_at DESC` yields a newest-first permutation of its input |
| TokenStore.GetUserActiveTokens | db/tokenRepository.js:72-85 | the result is ordered newest first, is a permutation of the active summaries, and contains exactly the user's active sessions |
| TokenStore.KeepUnexpired | db/tokenRepository.js:90-92 | the kept rows are exactly the rows whose refresh expiry is not before `now` |
| TokenStore.KeepUnexpiredPairwise | db/tokenRepository.js:90-92 | deleting rows keeps every property that holds pairwise over the table |
| TokenStore.KeepUnexpiredKeepsInvariants | db/tokenRepository.js:90-92 | deleting rows keeps the UNIQUE constraints and the one-live-row invariant |
| TokenStore.CleanupExpiredTokens | db/tokenRepository.js:90-92 | the sweep deletes exactly the rows whose refresh expiry is before `now`, keeps all others, reports the number deleted, and keeps every invariant |
| TokenStore.CountLiveAccess | db/tokenRepository.js:97-103 | the `COUNT(*)` is zero exactly when no row holds the token live and unexpired |
| TokenStore.IsTokenValid | db/tokenRepository.js:97-106 | valid exactly when some row holds the access token, is not revoked, and has an access expiry after `now` |
| Session.ResolveScope | auth/jwtService.js:10-11 | only an absent list defaults to the normalised address; a supplied list, even an empty one, is kept |
| Session.CreateTokenPair | auth/jwtService.js:9-57 | returns the two new texts with `expiresIn` 900 and `Bearer`; signs the access claims under the access secret for 30 s and the refresh claims under the refresh secret for 7 days; keeps every earlier signature; succeeds whenever every stored token is one the authority signed |
| Session.VerifyToken | auth/jwtService.js:103-109 | succeeds exactly when the token verifies under the access secret, returning its payload; a failure carries the verification prefix |
| Session.RefreshTokenPair | auth/jwtService.js:62-98 | every failure carries the refresh prefix; a refused refresh leaves the state unchanged; no text is signed but the two new ones; under the invariant, a refresh that passes all four checks succeeds |
| Session.RefreshFailure | auth/jwtService.js:95-97 | a refused refresh keeps the state, and its message is the refresh prefix followed by the original message |
| Session.RefreshRowUnique | auth/jwtService.js:72 | under the UNIQUE refresh column, the live row found for a token is the only row holding it |
| Session.ClaimedScope | auth/jwtService.js:139 | the access check uses the `allowedIps` claim, or the `ip` claim alone only when `allowedIps` is absent |
| Session.ValidateTokenWithIp | auth/jwtService.js:114-172 | valid exactly when the store-live, signature, kind and address checks all pass; valid results carry the signed payload and no error; every refusal carries an error and no payload; a token that is not store-live is refused as revoked or expired |
| SessionProperties.IssueLeavesOneLiveRow | auth/jwtService.js:42-49 | after issuance every earlier row of the user is revoked, other users' rows are untouched, and on success the one appended row is the user's new live row, with the normalised address, the resolved list and both stored expiries |
| SessionProperties.IssuedExpiries | auth/jwtService.js:42-56 | the stored access expiry (now + 900) precedes the refresh expiry (now + 604800); the response says 900 seconds of `Bearer` |
| SessionProperties.IssuedClaimsAgree | auth/jwtService.js:14-37 | both payloads carry the same user, name, normalised address and list, and differ only in kind; they are signed with the two different secrets |
| SessionProperties.IssuePreservesInv | auth/jwtService.js:45-49 | issuance keeps the table constraints, at most one live row per user, and the ledger backing of every stored token |
| SessionProperties.IssueKeepsLedgerCover | auth/jwtService.js:23-49 | rows that keep their texts and users, plus one new row holding the two texts just signed for its user, stay backed by the ledger |
| SessionProperties.RefreshFailureMessages | auth/jwtService.js:65-96 | each of the four refusals, checked in source order, yields its own message behind the common prefix and leaves the state unchanged |
| SessionProperties.RefreshIsReissue | auth/jwtService.js:94 | under the invariant, a refresh that passes its four checks succeeds, and it is an issuance for the token's user with the list of the live row that holds the token |
| SessionProperties.RefreshRevokesFamily | auth/jwtService.js:72-76 | after a refresh that passes its checks, every row holding the old access or refresh text is revoked |
| SessionProperties.FamilyRowsRevoked | db/tokenRepository.js:48-53 | once every row of a user is flagged and the rows added after hold other texts, every row sharing a token text with one of that user's rows is flagged |
| SessionProperties.RefreshPreservesScope | auth/jwtService.js:94 | a refresh that passes its checks appends one live row for the same user, and that row and the new access claims carry the old row's list, not one narrowed to the refreshing address |
| SessionProperties.RefreshPreservesInv | auth/jwtService.js:62-98 | a refresh keeps the lifecycle invariant, whether it succeeds or fails |
| SessionProperties.RefreshTokenSingleUse | auth/jwtService.js:72-76 | once a refresh token has been exchanged, no live row holds it; presenting it again fails without changing state, and fails at the lookup whenever the token still verifies |
| SessionProperties.RefreshRevokesOldAccess | auth/jwtService.js:117-124 | after a rotation the old access token is refused as revoked, at any time and from any address |
| SessionProperties.IssuedAccessValidatesFromOrigin | auth/jwtService.js:114-164 | a pair issued with the default list validates, within the access JWT's lifetime, from any address that normalises to the login address |
| SessionProperties.IssuedAccessRefusedElsewhere | auth/jwtService.js:136-157 | the same token presented from an address normalising to something else is refused for its address, when the login address holds no `*` |
| SessionProperties.StarAddressAdmitsEveryone | auth/jwtService.js:10-11 | a login whose client address reads `*` gets the default list `["*"]`, and its access token then validates from every address |
| Lifecycle.Step | auth/jwtService.js:9-98 | an event is refused only when an issuing event reuses a signed text; the ledger only grows |
| Lifecycle.FlagOnlyKeepsInv | db/tokenRepository.js:48-67 | an update that only sets revoked flags keeps the lifecycle invariant |
| Lifecycle.SweepKeepsInv | db/tokenRepository.js:90-92 | the sweep keeps the lifecycle invariant |
| Lifecycle.InitialInv | db/tokenRepository.js:3-13 | the empty table satisfies the lifecycle invariant |
| Lifecycle.StepPreservesInv | auth/jwtService.js:45-49 | every operation keeps the lifecycle invariant |
| Lifecycle.RunPreservesInv | auth/jwtService.js:45-49 | every sequence of operations keeps the lifecycle invariant |
| Lifecycle.OneLiveSessionPerUser | auth/jwtService.js:45-49 | after any sequence of logins, refreshes, logouts, revocations and sweeps from an empty table, no user has two live rows, the constraints hold, and every stored token was signed for its row's user |
| AuthMiddleware.BearerToken | middleware/authMiddleware.js:19 | the token is the header with the `Bearer ` prefix removed |
| AuthMiddleware.BearerRoundTrip | middleware/authMiddleware.js:12-19 | `Bearer <t>` passes the prefix test and yields `t` |
| AuthMiddleware.AuthenticateWithIp | middleware/authMiddleware.js:7-44 | exactly one of "respond" and "call next" happens: 401 without a bearer header, 500 when validation throws, 403 with the validation error and the client address when it refuses; otherwise the next handler runs once with the user and address attached |
| AuthMiddleware.OptionalAuth | middleware/authMiddleware.js:49-68 | never responds and always calls next once; user and address are attached exactly when a bearer token validates; after a refusal or a validator failure neither is attached, and a user never comes without an address |
| AuthMiddleware.OptionalAgreesWithBlocking | middleware/authMiddleware.js:7-68 | the optional guard attaches what the blocking guard attaches when it passes, and nothing when it would block |
| AuthMiddleware.MissingBearerIgnoresValidator | middleware/authMiddleware.js:10-17 | without a bearer header the outcome does not depend on the validator |
| AuthMiddleware.GuardAdmitsExactlyAccepted | middleware/authMiddleware.js:7-44 | wired to the service's validation, the guard never answers 500, and it passes exactly the requests carrying a token accepted from the derived client address, attaching that token's payload |
| AuthMiddleware.ForwardedHeaderDecidesAddress | middleware/authMiddleware.js:20-23 | when `X-Forwarded-For` is set, the guard tests the token against its first trimmed entry |

## Left out

- Cryptography: real JWT signing, `crypto.randomUUID` and JSON encoding are not modelled. Instead there is the abstract signer, a freshness precondition on the new texts, and the identity of the saved and read-back lists.
- Signer.Verify: `jsonwebtoken` reports a malformed text as `jwt malformed` and some other failures with their own messages. The model uses only `invalid signature` (not a recorded text, or the wrong secret) and `jwt expired`. `nbf`, clock tolerance and algorithms are not modelled.
- Wall-clock time: timestamps are a `nat` count of seconds. The stored expiries are ISO-8601 strings compared as text with SQLite's `datetime('now')`. On the day of expiry, the `T` separator sorts after the space, so rows stay current until the end of that UTC day. The model compares instants instead.
- Token lifetimes: the access JWT lives 30 s (`auth/jwtService.js:24`) while its row stores a 15-minute expiry (`auth/jwtService.js:42`). Both are kept as separate constants and are not reconciled.
- Concurrency: the revoke and the insert of `createTokenPair` are separate awaits without a transaction. Calls are modelled one at a time, with no interleavings.
- Wildcard.ParseRegex: regex syntax other than literal characters, `\x`, `.` and postfix `*` makes an entry match nothing. In JavaScript, such an entry is interpreted, or makes `new RegExp` throw. In `validateTokenWithIp` that throw becomes a refusal carrying the exception's message, and it also stops the scan of later entries. The glob equivalence is proved only for entries whose syntax characters are `.` and `*`.
- IpUtils.GetClientIp: the socket address is a plain string. `req.connection` is the same socket as `req.socket`, so the `||` fallback adds nothing. An absent socket address (`undefined`) is not modelled.
- Null and non-string inputs: `normalizeIp(undefined)`, a non-string `allowedIps`, and a header that is not a string are outside the model.
- Rows: the stored `allowed_ips` text is modelled as the list itself. The `FOREIGN KEY ... ON DELETE CASCADE` to `users` is not modelled.
- `server.js`, `db/userRepository.js` and `db/database.js`: routing, bcrypt, the SQL connection and logging are not modelled. Only the schema's UNIQUE columns, the AUTOINCREMENT id and `is_revoked DEFAULT 0` are used, as the store invariant and the initial flag.
