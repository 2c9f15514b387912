# Refresh-token rotation of Demo_JWT, modelled in Dafny

Demo_JWT is an ASP.NET service. Its `UserController` logs users in and hands out a short-lived
signed access token (a JWT that lives 10 seconds) together with an opaque refresh token. It keeps
one record per refresh token in the `RefreshTokens` table. On renewal it validates both tokens,
retires the stored record and issues a fresh pair.

This project models that controller:

- `Entities` (`entities.dfy`): the records. These are the user, the login and token requests, the
  refresh-token record, the API response, and what the JWT library reports about a validated token.
  It also holds the constants the controller uses: messages, lifetimes, `HS512`.
- `Queries` (`queries.dfy`): the two LINQ lookups. `SingleOrDefault` has three outcomes: no row,
  one row, or several rows, and several rows throw. `FirstIndexWhere` gives the position of the
  first matching row.
- `Clock` (`clock.dfy`): dates are whole seconds since the Unix epoch. It holds the conversion of
  the `exp` claim in two forms: as written, and as evidently intended.
- `TokenService` (`token_service.dfy`): each action as a function from the store to an `Outcome`
  (the reply plus the new store). These are `Login`, `Issue` and `Renew`. `Checks` is the
  validation chain. `RenewalSteps`/`FirstFailing` restate the same checks as an ordered list,
  which serves as an independent reference.
- `Controllers` (`user_controller.dfy`): the class `UserController`. It holds the two tables as
  `seq` fields and the JWT library as an injected `Codec`. Its methods `Validate`,
  `GenerateToken` and `RenewToken` update the refresh-token table in place, one early return per
  check, and are proved equal to the functions above.
- `Properties` (`properties.dfy`): the lemmas. They cover check order, no change on rejection,
  the shape of a rotation, single use, login, expiry, the missing-owner path, and invariants that
  every action keeps.

Oracles:

- The JWT library (HMAC-SHA-512 signing per section 3.2 of RFC 7518; `exp` and `jti` claims per
  sections 4.1.4 and 4.1.7 of RFC 7519) is an opaque `Codec`: `write` serialises claims, and
  `validate` returns the header algorithm and the `exp`/`jti` claims, or `None` when validation
  throws.
- The values taken from `Guid.NewGuid` and the random generator arrive in a `Draw` parameter.
- The clock is an integer `now` parameter.

Behaviour of the code that the model keeps:

- A bad signature is answered with the generic "Something went wrong", not a specific error.
- Retiring a record is a plain read-modify-write, with no conditional update.
- Inserting a duplicate refresh value is not refused.
- The premature-renewal check compares the epoch, not the claimed expiry, with `now`.
- The login lookup is not inside a `try`. When several users match the credentials,
  `SingleOrDefault` throws out of the action, which the model answers with `ServerError`.
- A refresh token's own `ExpiredAt` is never checked. `Properties.RefreshExpiryIgnored` proves
  that changing it does not change any renewal reply.

## Model

| member | source | states |
|---|---|---|
| Queries.SingleOrDefault | Demo_JWT/Controllers/UserController.cs:35-36 | no row matches iff the result is `NoMatch`; two rows match iff it is `Ambiguous` (the lookup throws); otherwise it is the one matching row |
| Queries.FirstIndexWhere | Demo_JWT/Controllers/UserController.cs:165-166 | `None` iff no record matches; otherwise the index of a matching record with no match before it |
| Queries.FirstIndexAfterUpdate | Demo_JWT/Controllers/UserController.cs:207-210 | updating the tracked record in place (its token unchanged) keeps it the first match |
| Queries.FirstIndexAfterAppend | Demo_JWT/Controllers/UserController.cs:92-93 | appending a record never moves an existing first match |
| Queries.FirstIndexAgrees | Demo_JWT/Controllers/UserController.cs:165-166 | the lookup depends only on which rows match |
| Clock.ConvertUnixTimeToDateTime | Demo_JWT/Controllers/UserController.cs:235-241 | as written: throws exactly when epoch + claim is outside the `DateTime` range, and otherwise returns the epoch whatever the claim |
| Clock.ConvertUnixTimeToDateTimeIntended | Demo_JWT/Controllers/UserController.cs:235-241 | as intended: the same failure range, and otherwise the epoch advanced by the claim |
| Clock.AsWrittenIgnoresClaim | Demo_JWT/Controllers/UserController.cs:238-240 | two representable claims always convert to the same date |
| Clock.IntendedIsInjective | Demo_JWT/Controllers/UserController.cs:238 | the intended conversion gives different dates for different claims |
| TokenService.Issue | Demo_JWT/Controllers/UserController.cs:57-100 | issuing appends one record and changes no other: not used, not revoked, owned by the user, holding the refresh value handed out, expiring one hour after issue; the access token is written from claims carrying the record's `JwtId` |
| TokenService.EqualsIgnoreCase | Demo_JWT/Controllers/UserController.cs:139 | the case-insensitive comparison holds for equal strings and only for strings of equal length |
| TokenService.Login | Demo_JWT/Controllers/UserController.cs:31-55 | login succeeds iff the credential lookup finds exactly one user, answers with a server error iff two users match, leaves the table unchanged on failure and appends one record on success |
| TokenService.Retire | Demo_JWT/Controllers/UserController.cs:207-210 | the presented record gets both flags set and keeps every other field; the other records and the table's length are unchanged |
| TokenService.Renew | Demo_JWT/Controllers/UserController.cs:112-233 | a renewal grows the table by one record iff it succeeds and otherwise keeps its length; it never changes an existing record's token value or `JwtId` |
| TokenService.Checks | Demo_JWT/Controllers/UserController.cs:133-204 | the chain passes only with the index of the first record holding the presented refresh value |
| TokenService.FirstFailing | Demo_JWT/Controllers/UserController.cs:133-204 | the reference: no step is reported iff every step holds; a reported step is listed, fails, and every step listed before it holds |
| Controllers.UserController.constructor | Demo_JWT/Controllers/UserController.cs:19-23 | the controller starts with the given tables, codec and expiry conversion |
| Controllers.UserController.Validate | Demo_JWT/Controllers/UserController.cs:31-55 | reply and new table are `Login` of the old table; exactly one record is added on success and the table is unchanged otherwise |
| Controllers.UserController.GenerateToken | Demo_JWT/Controllers/UserController.cs:57-100 | the new table is the old one plus the issued record; the pair is the one `Issue` specifies |
| Controllers.UserController.RenewToken | Demo_JWT/Controllers/UserController.cs:112-233 | reply and new table are `Renew` of the old table; the table grows by at most one record |
| Properties.FirstFailingCons | Demo_JWT/Controllers/UserController.cs:133-204 | a list of checks stops at its first failing check |
| Properties.RenewalStepsUnrolled | Demo_JWT/Controllers/UserController.cs:133-204 | the renewal's checks, in source order: signature, algorithm, readable expiry, expired, record exists, not used, not revoked, readable jti, jti bound |
| Properties.ChecksFollowFixedOrder | Demo_JWT/Controllers/UserController.cs:133-204 | the chain passes iff every listed check holds; otherwise its answer is the one for the first failing check |
| Properties.StoreChecksInOrder | Demo_JWT/Controllers/UserController.cs:164-204 | once the access token is accepted, the record checks apply in the order exists, used, revoked, jti |
| Properties.RejectedRenewalUnchanged | Demo_JWT/Controllers/UserController.cs:139-204 | a rejected chain returns its rejection and leaves the table unchanged |
| Properties.FirstFailingCheckDecides | Demo_JWT/Controllers/UserController.cs:137-204 | when a check fails, the answer is the answer for the first failing check alone, and the table is unchanged |
| Properties.RenewalSucceedsIff | Demo_JWT/Controllers/UserController.cs:133-222 | a renewal succeeds iff every check holds and the owning user is found exactly once |
| Properties.SuccessfulRenewalRotates | Demo_JWT/Controllers/UserController.cs:165-222 | on success: the presented record was live and bound to the access token's `jti`; it now has both flags set; every other old record is unchanged; exactly one live record is appended for the same user, bound to the new `jti`, expiring one hour after issue; the reply carries the new pair |
| Properties.MissingOwnerRetiresWithoutIssuing | Demo_JWT/Controllers/UserController.cs:207-232 | if the owner is not found exactly once after the checks pass, the presented record stays retired, nothing is appended, and the reply is "Something went wrong" |
| Properties.RenewStore | Demo_JWT/Controllers/UserController.cs:139-222 | a renewal's table is either the old one, or the old one with the presented record retired, followed on success by one record of a user in the table |
| Properties.UsedRecordRefused | Demo_JWT/Controllers/UserController.cs:176-184 | a presented token whose record is used never succeeds and changes nothing; once the access token is accepted, the answer is "Refresh token has been used" |
| Properties.SingleUse | Demo_JWT/Controllers/UserController.cs:177-184 | after a successful renewal, presenting the same refresh token again never succeeds and changes nothing; once the access token is accepted, the answer is "Refresh token has been used" |
| Properties.OnlyRetiredRecordHoldsPresentedValue | Demo_JWT/Controllers/UserController.cs:165-214 | after a successful renewal, with refresh values unique in the table and a new value drawn, every record holding the presented value is used and revoked, so any row the lookup may return refuses a second renewal |
| Properties.LoginIssuesOnlyOnUniqueMatch | Demo_JWT/Controllers/UserController.cs:35-55 | login succeeds iff some user matches both name and password and no two do, and then one live record for that user is appended; "Invalid username/password" iff none matches; a server error (the lookup throws) iff two match; the table is unchanged on every failure |
| Properties.LoginReplies | Demo_JWT/Controllers/UserController.cs:35-55 | the login reply by lookup outcome: success for one user, "Invalid username/password" for none, a server error for several; the table is unchanged unless it succeeds |
| Properties.CredentialLookup | Demo_JWT/Controllers/UserController.cs:35-36 | the credential lookup finds nothing iff no user holds the credentials, throws iff two do, and otherwise returns a user who holds them |
| Properties.LoginIssuesRecord | Demo_JWT/Controllers/UserController.cs:47-55 | a successful login appends one live record for a user holding the credentials, bound to the new `jti`, expiring one hour after issue, and replies with that user's pair |
| Properties.AsWrittenExpiryFiresOnlyBeforeEpoch | Demo_JWT/Controllers/UserController.cs:150-162 | as written, a well-formed token is refused as "not yet expired" iff `now` is before the epoch |
| Properties.AsIntendedExpiryRejectsPremature | Demo_JWT/Controllers/UserController.cs:150-162 | as intended, it is refused iff its `exp` is after `now` |
| Properties.AlgorithmCheckIgnoresCase | Demo_JWT/Controllers/UserController.cs:139 | for every header value: the comparison with HS512 passes iff the value has five characters, an `h` or `H`, an `s` or `S`, then `512` |
| Properties.LoginSucceedsFor | Demo_JWT/Controllers/UserController.cs:35-54 | a unique credential match yields the pair and the record of a user in the table with those credentials |
| Properties.IssuedPairPassesStoreChecks | Demo_JWT/Controllers/UserController.cs:57-100 | with a round-tripping codec, unique user ids and a new refresh value, a freshly issued pair is refused as "not yet expired" (table unchanged) while its expiry date is after `now`, and renews successfully otherwise |
| Properties.PrematureRenewalAcceptedAsWritten | Demo_JWT/Controllers/UserController.cs:235-241 | as written, a pair renews successfully in the same second as the login that issued it |
| Properties.PrematureRenewalRejectedAsIntended | Demo_JWT/Controllers/UserController.cs:150-162 | as intended, that renewal is refused with the table unchanged until the access token's 10 seconds are over, and succeeds from then on |
| Properties.LoginKeepsHistory | Demo_JWT/Controllers/UserController.cs:92-93 | login never removes or rebinds a record and never clears a flag |
| Properties.RenewKeepsHistory | Demo_JWT/Controllers/UserController.cs:207-214 | renewal never removes or rebinds a record and never clears a flag |
| Properties.LoginKeepsTokensUnique | Demo_JWT/Controllers/UserController.cs:79-93 | with a new refresh value, refresh values stay unique across the table after a login |
| Properties.RenewKeepsTokensUnique | Demo_JWT/Controllers/UserController.cs:207-214 | the same after a renewal |
| Properties.RefreshExpiryIgnored | Demo_JWT/Controllers/UserController.cs:164-204 | changing a record's `ExpiredAt` changes no renewal reply |
| Properties.SameChecks | Demo_JWT/Controllers/UserController.cs:164-204 | the checks read nothing of a record except its token value, flags and `JwtId` |

## Findings

| source | as written | input that shows it | evidently intended | confidence | as-written member | corrected member |
|---|---|---|---|---|---|---|
| Demo_JWT/Controllers/UserController.cs:238 | `AddSeconds` returns a new date that is thrown away, so the conversion returns 1970-01-01 and the check at line 154 refuses only when the clock is before the epoch | log in at `now = 5` (access token `exp = 15`), then renew at `now = 5`: the renewal succeeds | keep the sum, so that renewal is refused until `exp` has passed | not executed | Properties.PrematureRenewalAcceptedAsWritten | Properties.PrematureRenewalRejectedAsIntended |

The conversion is a parameter of the controller (`Clock.ExpiryRule`: `AsWritten` or `AsIntended`).
Every lemma in `Properties` holds for both rules, except the four whose names say `AsWritten`
or `AsIntended`. The corrected
conversion, `Clock.ConvertUnixTimeToDateTimeIntended`, is the one the evident intent calls for.

## Left out

- `GenerateRefreshToken` (Demo_JWT/Controllers/UserController.cs:101-110) fills 32 bytes from a cryptographic random generator and Base64-encodes them. Both are foreign calls. The resulting refresh value arrives in the `Draw` parameter, and lemmas that need it new say so in a `requires`.
- Signing and verifying with HMAC-SHA-512, and serialising tokens, happen inside `JwtSecurityTokenHandler`. They are the opaque `Codec`, and `validate` returning `None` stands for every exception `ValidateToken` throws. Claim-type mapping inside the handler is not modelled.
- Reading the secret key from configuration (lines 60 and 116) is not modelled. A missing key would throw outside the `try` of the renewal action.
- The `Get` endpoint (lines 25-29) is not modelled. HTTP framing is kept only as the tags `Ok`, `BadRequest` and `ServerError`.
- Program.cs (bootstrap, dependency injection, middleware) is not part of this model. Neither is MyDbContext.cs: the tables are `seq` fields, and `SaveChangesAsync` is an immediate commit.
- Concurrency between simultaneous renewals is not modelled. The source has no compare-and-set, so two racing renewals of one token would both pass the checks. The model is sequential.
- Calendar arithmetic is not modelled. Dates are whole seconds, and the separate `DateTime.UtcNow` reads (lines 72, 88, 89, 154) are a single `now`, so `ExpiredAt` is exactly `IssueAt` plus one hour. Fractional seconds of `AddSeconds` do not arise.
- The `exp` claim is an `Option<int>`. `None` covers a missing claim and text that `long.Parse` cannot read. The 64-bit range of the parsed value is checked explicitly.
- Null `FullName` or `Email` values are not modelled (strings are never null). In the source, the `Claim` constructor would throw for them.
- `Queries.FirstIndexWhere`: the refresh-token lookup at line 165 is `FirstOrDefault` with no ordering, so the database may return any matching row. The model returns the first match in insertion order. `Properties.SingleUse` relies on that order when a renewal draws the presented value again. `Properties.OnlyRetiredRecordHoldsPresentedValue` shows that with unique refresh values and a new draw, every matching row is retired, so the order does not matter then.
- `TokenService.EqualsIgnoreCase`: the algorithm name is compared by ASCII ordinal-ignore-case, standing for the invariant-culture comparison at line 139. Culture-specific case mappings, ignorable code points and canonically equivalent sequences are not modelled, so the model requires equal lengths where .NET may not. The header comes from a token signed with the server's own key, so this does not change which renewals pass.
- `TokenService.LoginMatches` and `TokenService.HasToken`: the model compares user name, password and refresh value exactly. The lookups at lines 35-36 and 165-166 run in SQL Server, where `=` ignores trailing spaces under every collation and ignores case under the default collation. There, a user name with a trailing space or in another case, or a case variant of a stored refresh value, finds the stored row, where the model finds none. The iff in `Properties.LoginIssuesOnlyOnUniqueMatch` and `Properties.CredentialLookup`, and the lookups behind `Properties.SingleUse` and `Properties.OnlyRetiredRecordHoldsPresentedValue`, hold for exact comparison only.
