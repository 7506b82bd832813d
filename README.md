# user-crud: sessions, refresh tokens and user rules in Dafny

This project models the authentication core of the `user-crud` NestJS
backend, together with the user-record rules beside it.

**The session table.** It holds one row per logged-in device. Each row keeps
only a bcrypt digest of that device's refresh token.

**The auth service.** It signs an access token and a 30-day refresh token on
log-in. It also:
- resolves a presented refresh token to one session of the token's subject;
- deletes the session on log-out;
- rotates the session on refresh (log in again, then delete the consumed
  session).

**The request guard.** It decides, from the outcome of the JWT strategy and
two route flags, whether a request passes.

**The user service and repository.** They keep a user table with soft
deletion. They also:
- hash passwords;
- turn unique-constraint errors into Conflict;
- refuse to delete another user's account;
- filter every lookup to users that are not deleted;
- search names case-insensitively and sort the results by name;
- render the birthday as `YYYY-MM-DD` and map the stored theme.

The two database tables are classes whose `seq` fields the repositories
reassign. Rows are kept in insertion order. Prisma's `findMany` without
`orderBy` promises no order, so the model fixes this one; the source's
order is unspecified. The services hold their repository as a
`const` and change it through its methods. The pure decisions are functions:
- the session lookup;
- the guard;
- the error mapping;
- the `where` filters;
- `toDomain`.

### Stand-ins for I/O and libraries

- **Clock.** The clock is an integer parameter `now`, in milliseconds. JWT
  times are in seconds, with `Seconds(now) = now / 1000` rounded down.
- **bcrypt.** `hash` is the injective `Crypto.Hash`, and `compare(p, d)`
  holds exactly when `d == Hash(p)`.
- **JWT.** A token is its claims (`sub`, `exp`, an optional token id) plus
  the key that signed it.
  - `verify` rejects a token signed with another key (`JsonWebTokenError`).
  - It also rejects a token from the second `exp` on (`TokenExpiredError`).
- **Generated ids.** Generated uuids are counters.
- **Bad birthdays.** An unparsable birthday is the database error
  `InvalidDate`.

### Where the code and the intended behaviour disagree (the model follows the code)

- **The expiry boundary.** A matched session is rejected only when
  `expiresAt < now` (`src/modules/auth/application/user-session.service.ts:57`).
  The purge deletes with the same strict `<`. So a session whose `expiresAt`
  equals `now` is still accepted, although the intended behaviour treats it
  as expired. `SessionTable.SelectSessionSpec` and
  `SessionTable.PurgeAgreesWithExpiryCheck` state the code's behaviour.
- **Verify errors.** A refresh token that fails `jwtService.verify` is not
  turned into Unauthorized. The error from `verify`
  (`src/modules/auth/application/auth.service.ts:65`) propagates as it is.
  The model calls it `JwtRejected(name)`.
- **The expiry branch.** Every session this service creates expires exactly
  when its token does, and `verify` refuses the token from that second on.
  So when both checks read the same clock, "Refresh token has expired" is
  never reached after a successful `verify` (`Auth.VerifiedSessionIsUnexpired`).
  The source reads the clock twice, though: in `verify`
  (`src/modules/auth/application/auth.service.ts:65`) and again after the
  awaited session scan
  (`src/modules/auth/application/user-session.service.ts:57`). A token that
  passes `verify` just before its expiry and whose session is checked just
  after it reaches the branch (`Auth.ExpiryReachedAcrossClocks`).

### Refresh tokens carry a token id

The source signs a refresh token with the payload `{ sub }` alone. The model
adds a token id taken from a counter (`AuthService.nextTokenId`). The reason
is under "## Findings".

## Model

| member | source | states |
|---|---|---|
| Crypto.Sign | src/modules/auth/application/auth.service.ts:20-21 | the token names the given subject, key and token id, and expires `lifetime` seconds after the signing second; it is valid at signing time exactly when its lifetime is positive |
| Crypto.Verify | src/modules/auth/application/auth.service.ts:65 | accepts exactly a token signed with the service key whose expiry second has not begun, and yields its claims; every refusal is a JWT error |
| Crypto.CompareIsHashEquality | src/modules/auth/application/user-session.service.ts:46 | `compare` of a secret against the digest of another secret holds exactly when the two are equal |
| SessionTable.SessionsOf | src/modules/auth/infrastructure/user-session.repository.ts:24-26 | a row is returned exactly when it is in the table and belongs to the user |
| SessionTable.SessionsOfAppend | src/modules/auth/infrastructure/user-session.repository.ts:24-26 | the per-user selection keeps table order: on a concatenated table it is the concatenation of the two selections |
| SessionTable.Unexpired | src/modules/auth/infrastructure/user-session.repository.ts:20 | a row is kept exactly when it is in the table and not `expiresAt < now` |
| SessionTable.ExpiredRows | src/modules/auth/infrastructure/user-session.repository.ts:20 | a row is purged exactly when it is in the table and `expiresAt < now` |
| SessionTable.PurgePartition | src/modules/auth/infrastructure/user-session.repository.ts:19-22 | kept rows plus purged rows account for every row, so the purge count is the size difference |
| SessionTable.RemoveId | src/modules/auth/infrastructure/user-session.repository.ts:15-17 | a row survives exactly when it is in the table and has another id |
| SessionTable.RemoveIdAppend | src/modules/auth/infrastructure/user-session.repository.ts:15-17 | deleting by id distributes over concatenation, so it keeps table order |
| SessionTable.RemoveIdCount | src/modules/auth/infrastructure/user-session.repository.ts:15-17 | with distinct ids, deleting a present id removes exactly one row and deleting an absent id removes none |
| SessionTable.FindById | src/modules/auth/infrastructure/user-session.repository.ts:28-30 | returns a row of the table with that id, or nothing exactly when no row has it |
| SessionTable.FirstMatch | src/modules/auth/application/user-session.service.ts:44-51 | the index of a session whose digest matches the token, with no match before it; nothing exactly when no session matches |
| SessionTable.UniqueMatch | src/modules/auth/application/user-session.service.ts:51 | when exactly one session holds the token's digest, that session is the first match |
| SessionTable.SelectSessionSpec | src/modules/auth/application/user-session.service.ts:51-61 | the lookup succeeds exactly for a first match with `expiresAt >= now` and returns that matching, unexpired session; "Invalid refresh token" exactly when no session matches |
| SessionTable.PurgeAgreesWithExpiryCheck | src/modules/auth/infrastructure/user-session.repository.ts:20 | a matched row survives the purge at `now` exactly when the lookup at `now` accepts it, and is purged exactly when the lookup rejects it as expired |
| SessionTable.UnheldTokenIsInvalid | src/modules/auth/application/user-session.service.ts:53-55 | a token whose digest no row holds is "Invalid refresh token" for every user and time |
| SessionRepository.UserSessionRepository.Create | src/modules/auth/infrastructure/user-session.repository.ts:11-13 | appends exactly one row with a fresh id, the given fields and `createdAt = now`; earlier rows are untouched and the table stays valid |
| SessionRepository.UserSessionRepository.Delete | src/modules/auth/infrastructure/user-session.repository.ts:15-17 | the new table is the old one without the rows with that id |
| SessionRepository.UserSessionRepository.DeleteExpiredSessions | src/modules/auth/infrastructure/user-session.repository.ts:19-22 | keeps exactly the rows with `expiresAt >= now`, in order, and returns the number of rows removed |
| SessionRepository.UserSessionRepository.FindByUserId | src/modules/auth/infrastructure/user-session.repository.ts:24-26 | returns exactly the user's rows, in table order |
| SessionRepository.UserSessionRepository.FindOneById | src/modules/auth/infrastructure/user-session.repository.ts:28-30 | returns the row with that id when one exists, and nothing exactly when none does |
| SessionRepository.RemoveIdKeepsValid | src/modules/auth/infrastructure/user-session.repository.ts:15-17 | deleting by id keeps row ids distinct and below the id counter |
| SessionRepository.UnexpiredKeepsValid | src/modules/auth/infrastructure/user-session.repository.ts:19-22 | the purge keeps row ids distinct and below the id counter |
| SessionService.SessionData | src/modules/auth/application/user-session.service.ts:14-21 | the stored row carries the token's digest and no other token matches it; user and expiry are passed unchanged |
| SessionService.UserSessionService.CreateSession | src/modules/auth/application/user-session.service.ts:14-21 | appends exactly one row holding `Hash(refreshToken)`, the given user and expiry and `createdAt = now` |
| SessionService.UserSessionService.DeleteExpiredSessions | src/modules/auth/application/user-session.service.ts:24-26 | performs the repository purge and returns its count |
| SessionService.UserSessionService.DeleteSession | src/modules/auth/application/user-session.service.ts:28-38 | a missing id is NotFound and changes nothing; otherwise removes exactly that row (one fewer row) and returns it as it was |
| SessionService.UserSessionService.FindSessionByToken | src/modules/auth/application/user-session.service.ts:40-62 | reads only; a returned session belongs to the user, matches the token and has `expiresAt >= now`; "Invalid refresh token" exactly when none of the user's rows holds the token's digest |
| JwtGuard.HandleRequestSpec | src/modules/auth/presentation/passport/jwt-auth.guard.ts:12-36 | a strategy error is rethrown whatever else holds; the request is admitted exactly when it is admissible, with the strategy's user unchanged; "Token expired" exactly for an expired token on a route without the skip flag; the bare Unauthorized otherwise |
| JwtGuard.ExpiryOverridesPublic | src/modules/auth/presentation/passport/jwt-auth.guard.ts:17-24 | an expired token is refused even on a public route unless the route skips the check; with the skip set the decision is as if no expiry were reported |
| Dates.DateFields | src/modules/user/infrastructure/user.repository.ts:58 | the fields of a `YYYY-MM-DD` string are a four-digit year and two-digit month and day |
| Dates.RollOver | src/modules/user/infrastructure/user.repository.ts:58 | a day up to 31 becomes a real day of the same year: unchanged when the month has it, otherwise the excess counted into the next month |
| Dates.ParseDate | src/modules/user/infrastructure/user.repository.ts:58 | a `YYYY-MM-DD` string parses exactly when its month is 1..12 and its day 1..31; the result is a real calendar day at UTC midnight with a four-digit year, and the named day itself when it exists |
| Dates.ParseRollsOver | src/modules/user/infrastructure/user.repository.ts:58 | a day the month lacks (such as `2023-02-30`) parses to the next month's day and does not format back to the text |
| Dates.FormatParsedDate | src/modules/user/infrastructure/user.repository.ts:58 | a `YYYY-MM-DD` string that names a real day parses, and formatting the result gives back the string |
| Dates.ParseFormattedDate | src/modules/user/infrastructure/user.repository.ts:78 | parsing the formatted form of a valid day with a four-digit year gives back that day |
| Dates.IsoDatePart | src/modules/user/infrastructure/user.repository.ts:78 | the part of `toISOString()` before the first `T` is the formatted calendar date, and it is never empty |
| Dates.SplitFirst | src/modules/user/infrastructure/user.repository.ts:78 | the result is the longest prefix without the separator |
| UserTable.MapThemeToDomainSpec | src/modules/user/infrastructure/user.repository.ts:65-74 | `dark` and `light` map to the domain themes and invert the stored spelling; every other value fails with "Unknown theme" |
| UserTable.BirthdayText | src/modules/user/infrastructure/user.repository.ts:78 | an absent birthday is null; a present one is its `YYYY-MM-DD` date |
| UserTable.ToDomain | src/modules/user/infrastructure/user.repository.ts:76-89 | fails exactly on an unknown theme; otherwise keeps every field and renders birthday and theme |
| UserTable.ToDomainAll | src/modules/user/infrastructure/user.repository.ts:36 | succeeds exactly when every row converts, and then converts each row in place |
| UserTable.ContainsSpec | src/modules/user/infrastructure/user.repository.ts:26-27 | `contains` holds exactly when the text occurs at some position |
| UserTable.WithActiveFilter | src/modules/user/infrastructure/user.repository.ts:91-93 | a row matches exactly when it matches the original conditions and is not soft-deleted |
| UserTable.Filter | src/modules/user/infrastructure/user.repository.ts:31-34 | a row is returned exactly when it is in the table and matches |
| UserTable.FirstIndex | src/modules/user/infrastructure/user.repository.ts:40 | the index of a matching row with no match before it; nothing exactly when no row matches |
| UserTable.NameLeTotal | src/modules/user/infrastructure/user.repository.ts:32 | any two names are comparable in the name order |
| UserTable.InsertByName | src/modules/user/infrastructure/user.repository.ts:32 | inserting into a name-sorted list keeps it sorted and adds exactly that row |
| UserTable.SortByName | src/modules/user/infrastructure/user.repository.ts:32 | the result is sorted by name and is a permutation of the input |
| UserTable.FindRowsSpec | src/modules/user/infrastructure/user.repository.ts:20-37 | a row is found exactly when it is active, has the given email and country, and, for a non-empty search, its name or last name contains the search ignoring case; with a search the result is sorted by name and a permutation of the matches; without one it is the matches in table order |
| UserTable.LookupsSeeOnlyActiveRows | src/modules/user/infrastructure/user.repository.ts:39-47 | `find`, `findOneByEmail` and `findOneById` only ever reach rows that are not soft-deleted |
| UserTable.ToRowPatch | src/modules/user/infrastructure/user.repository.ts:54-63 | only a non-empty birthday is converted, and an unparsable one is exactly the `InvalidDate` failure; a converted birthday is the parsed date, and it formats back to the given text exactly when that text names a real day; the other given fields pass through |
| UserTable.ApplyPatch | src/modules/user/infrastructure/user.repository.ts:55-61 | each given field overwrites; id, timestamps and every absent field are kept |
| UserTable.BirthdayRoundTrip | src/modules/user/infrastructure/user.repository.ts:54-63 | a birthday naming a real day, written through `updateOne` over a row with a known theme, comes back from `toDomain` as the same string |
| UserStore.FindOne | src/modules/user/infrastructure/user.repository.ts:39-47 | null exactly when no row matches; a returned user is the conversion of a matching row; a failure comes from converting a matching row |
| UserStore.UserRepository.Create | src/modules/user/infrastructure/user.repository.ts:15-18 | a taken email is the email unique violation and changes nothing; otherwise exactly one row with a fresh id, the default theme and `createdAt = now` is appended |
| UserStore.UserRepository.Find | src/modules/user/infrastructure/user.repository.ts:20-37 | returns the conversion of the found rows; every returned user is active |
| UserStore.UserRepository.FindOneByEmail | src/modules/user/infrastructure/user.repository.ts:39-42 | null exactly when no active row has the email; a returned user has that email and is active |
| UserStore.UserRepository.FindOneById | src/modules/user/infrastructure/user.repository.ts:44-47 | null exactly when no active row has the id; a returned user has that id and is active |
| UserStore.UserRepository.SoftDelete | src/modules/user/infrastructure/user.repository.ts:49-52 | with no active row with that id, not-found and no change; otherwise only that row's `deletedAt` becomes `now` |
| UserStore.UserRepository.UpdateOne | src/modules/user/infrastructure/user.repository.ts:54-63 | an unparsable birthday, a missing row or an email held by another row changes nothing; otherwise only that row changes, by the patch |
| UserService.ConflictForSpec | src/modules/user/application/user.service.ts:18-29 | a unique violation on `email` becomes "This email address is already used"; any other unique violation becomes the generic Conflict; every other error is rethrown unchanged |
| UserService.HashedNewUser | src/modules/user/application/user.service.ts:14-17 | the stored password is the digest of the given one; email and names pass unchanged |
| UserService.HashedUpdate | src/modules/user/application/user.service.ts:75-83 | a password is present exactly when a non-empty one was given, and then it is its digest; every other field is passed as given |
| UserService.UserService.CreateUser | src/modules/user/application/user.service.ts:14-30 | a taken email is the email Conflict and adds no row; otherwise the row with the hashed password is appended; a created user has the given email and the password's digest |
| UserService.UserService.DeleteUser | src/modules/user/application/user.service.ts:32-44 | NotFound and no change without an active user; Forbidden and no change for another user's account that converts; otherwise that row alone is stamped `deletedAt = now`; every failure leaves the table unchanged |
| UserService.UserService.FindUserByEmail | src/modules/user/application/user.service.ts:46-48 | the repository's active lookup by email |
| UserService.UserService.FindUserById | src/modules/user/application/user.service.ts:50-52 | the repository's active lookup by id |
| UserService.UserService.FindUserByIdOrFail | src/modules/user/application/user.service.ts:54-62 | NotFound exactly when no active user has the id; a returned user is the active one with that id |
| UserService.UserService.FindUsers | src/modules/user/application/user.service.ts:64-66 | the repository's `find` |
| UserService.UserService.UpdateUser | src/modules/user/application/user.service.ts:68-96 | NotFound and no change without an active user; an email held by another row is the email Conflict and no change; an unparsable birthday fails with no change; when the user exists and converts, the birthday parses and the email is free, the update succeeds; every failure, including a stored user whose theme does not convert, leaves the table unchanged; on success only that row changes, by the patch with the hashed password |
| Auth.LookUpSessionSpec | src/modules/auth/application/auth.service.ts:64-69 | a JWT error exactly when the token is foreign or expired; a resolved session belongs to the token's subject, holds its digest and has not expired; "Invalid refresh token" exactly when no session of the subject holds the digest |
| Auth.ResolvesToUniqueHolder | src/modules/auth/application/auth.service.ts:64-69 | a valid token resolves to the one unexpired session of its subject that holds its digest |
| Auth.ReplayIsRejected | src/modules/auth/application/auth.service.ts:29-41 | a token whose digest no row holds is refused, and a verified one is refused as "Invalid refresh token" |
| Auth.IssueKeepsInvariant | src/modules/auth/application/auth.service.ts:19-27 | the row of a token with the next token id keeps every row issued by this service and every digest unique |
| Auth.VerifiedSessionIsUnexpired | src/modules/auth/application/auth.service.ts:21-24 | with the table as the service keeps it, a token resolution that reads one clock for `verify` and the expiry check never ends in "Refresh token has expired" |
| Auth.ExpiryReachedAcrossClocks | src/modules/auth/application/user-session.service.ts:57 | a token `verify` accepted at one clock reading is refused as "Refresh token has expired" when the expiry check's later reading falls after its session's expiry |
| Auth.ExpiryAcrossClocksExample | src/modules/auth/application/user-session.service.ts:57 | the concrete case: a token expiring at second 1, verified at 999 ms and checked at 1001 ms |
| Auth.UnissuedTokenIsRejected | src/modules/auth/application/auth.service.ts:20-21 | a token without a token id, such as an access token, or with an id not yet handed out, never resolves |
| Auth.OtherSessionsStillResolve | src/modules/auth/application/auth.service.ts:29-32 | deleting a different session leaves a token's resolution unchanged |
| Auth.EarlierSessionsStillResolve | src/modules/auth/application/auth.service.ts:19-27 | adding a session with a new digest leaves earlier tokens' resolutions unchanged (several devices) |
| Auth.CheckPassword | src/modules/auth/application/auth.service.ts:53-61 | the user exactly when found with a matching password; otherwise "User not found" or "Wrong password" |
| Auth.RefreshAsWritten | src/modules/auth/application/auth.service.ts:34-41 | fails exactly when the lookup fails; the new refresh token is fixed by the subject and the current second |
| Auth.SameSecondRefreshReissues | src/modules/auth/application/auth.service.ts:34-41 | as written, a refresh in the second the token was signed returns that same token, and the consumed token still resolves afterwards |
| Auth.SameSecondRefreshExample | src/modules/auth/application/auth.service.ts:34-41 | the concrete case: a token signed at 1000 ms, refreshed at 1500 ms, is handed back and still resolves |
| Crypto.TruncationConfusesTokens | src/modules/auth/application/user-session.service.ts:46 | two different tokens of one subject are told apart by the whole-token comparison and not by the 72-byte one |
| Auth.FirstTruncatedMatch | src/modules/auth/application/user-session.service.ts:44-51 | the index of the first session the 72-byte `compare` accepts; nothing exactly when it accepts none |
| Auth.TruncatedLookUpAcceptsReplay | src/modules/auth/application/user-session.service.ts:40-62 | with the 72-byte `compare`, a verified token resolves to its subject's first session whenever that session is unexpired, even when no row holds its digest, where the whole-token lookup refuses it |
| Auth.TruncatedReplayExample | src/modules/auth/application/auth.service.ts:34-41 | the concrete case, with tokens without a token id: user 1's refresh token, rotated away, is refused by the whole-token lookup and accepted by the 72-byte one |
| Auth.AuthService.LogIn | src/modules/auth/application/auth.service.ts:19-27 | appends exactly one session for the user, with the refresh token's digest and `expiresAt = exp * 1000`; no earlier row holds that digest; the new refresh token resolves to the new session |
| Auth.AuthService.FindUserSessionByToken | src/modules/auth/application/auth.service.ts:64-69 | reads only, and resolves the token by its verified subject |
| Auth.AuthService.LogOut | src/modules/auth/application/auth.service.ts:29-32 | an unresolved token fails as the lookup did and changes nothing; otherwise exactly the resolved session is deleted (one fewer row), and the token does not resolve against the resulting table at any clock reading |
| Auth.AuthService.RefreshToken | src/modules/auth/application/auth.service.ts:34-41 | an unresolved token fails as the lookup did and changes nothing; otherwise the consumed session is replaced by one new session for the same user with the new refresh token; the consumed token does not resolve against the resulting table at any clock reading, and the new one resolves |
| Auth.AuthService.SignUp | src/modules/auth/application/auth.service.ts:43-48 | `createUser`, then, only on success, a log-in for the new user, returning the created user; a free email whose new row converts always succeeds, the returned user is the conversion of the created row, and the new refresh token resolves to the new session; a failed sign-up adds no session |
| Auth.AuthService.ValidateUser | src/modules/auth/application/auth.service.ts:50-62 | "User not found" exactly when no active user has the email; "Wrong password" exactly when the password does not match; otherwise that user |

## Left out

- HTTP controllers, cookies, Swagger, the exception filter, logging and
  response classes are transport only.
- Module wiring and configuration are not modelled. The JWT secret and the
  access-token lifetime (`JWT_EXP_TIME`) are constructor parameters of
  `Auth.AuthService`.
- DTO validation is declarative library behaviour.
- `Auth.AuthService.constructor` requires an empty session table, because
  the table invariant speaks of tokens issued by this service.
- The cleanup cron service is not modelled (`user-session-cleanup.service.ts`:
  its timer and its try/catch). The purge it calls is modelled.
- Each lookup is a pure function of one clock reading `now`. The source
  reads the clock separately in `verify` and in the expiry check;
  `Auth.ExpiryReachedAcrossClocks` covers that gap for the expiry branch.
- The concurrent double-refresh race is not modelled. The `Promise.all` of
  bcrypt comparisons is modelled as a sequential scan, which gives the same
  first match.
- bcrypt internals (salt, cost factor) and JWT internals (signature, header,
  `iat`) are not modelled.
  - bcrypt reads only the first 72 bytes of its input (see "## Findings").
    The service model takes `compare` over the whole token. The single-use
    and "other sessions" results, and `Auth.UnissuedTokenIsRejected` (an
    access token never resolves), hold only under that assumption.
- Prisma specifics are not modelled:
  - Prisma's own error for deleting a missing session. `deleteSession` checks
    first, and `Auth.AuthService.LogOut` and `RefreshToken` prove that the
    check cannot fail.
  - Real database indexes. The email unique index is taken to cover
    soft-deleted rows, and a unique violation is an abstract error value.
  - The database's collation. The name order compares character codes, and
    case-insensitivity is ASCII lower-casing.
- `Dates.ParseDate`: `new Date(s)` is modelled only for `YYYY-MM-DD`.
  - As in V8, a day of 1..31 that the month lacks rolls over into the next
    month (`2023-02-30` is stored as March 2). Only the DTO's
    `@IsDateString({ strict: true })`, which is not modelled, keeps such a
    string out; so `Dates.FormatParsedDate` and `UserTable.BirthdayRoundTrip`
    hold only for strings that name a real day.
  - Full ISO date-times and the other forms JavaScript accepts are treated
    like an invalid date.
  - A UTC year outside 0..9999 is formatted but cannot be parsed back.
- The schema's default theme is a constructor parameter (`defaultTheme`).
- `checkForUniqueQueryError` from `@common/utils` is not part of this model.
  A unique-constraint error is the `UniqueViolation` database error, with
  the target either a list of fields or a constraint name.
- The JWT strategy (`jwt.strategy.ts`) is not modelled. The guard takes its
  outcome (error, user, info) as input.

## Findings

| source | as written | input that shows it | evidently intended | confidence | as-written member | corrected member |
|---|---|---|---|---|---|---|
| src/modules/auth/application/auth.service.ts:34-41 | the new refresh token is `sign({ sub })`, fixed by the subject and the second; a refresh in the second the consumed token was signed in hands back the same token, stored again under a new session, so the consumed token still works; likewise two log-ins of one user within one second store two sessions with the same digest, and a log-out from either device deletes the first of them | key `secret`; a refresh token for user 1 signed at 1000 ms with its session; `refreshToken` at 1500 ms | every refresh token works once (rotation) | not executed | Auth.SameSecondRefreshReissues | Auth.AuthService.RefreshToken |
| src/modules/auth/application/user-session.service.ts:46 | bcrypt `compare` reads only the first 72 bytes of the token; the header and the start of the `sub` claim fill them, so it accepts every token of the same user against every session of that user, and a consumed refresh token resolves to its user's first session whenever that session is unexpired | key `secret`; a refresh token of user 1 signed at 1000 ms, rotated at 5000 ms; the consumed token presented at 6000 ms | only the device's own current refresh token resolves (compare a digest of the whole token, e.g. SHA-256 first) | not executed | Auth.TruncatedReplayExample | Auth.ReplayIsRejected |
