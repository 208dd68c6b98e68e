# Authentication layers of alx-backend-user-data, in Dafny

This project models the authentication core of a teaching repository that builds
three authentication layers for small web APIs. It proves properties of the model.

- **Basic authentication (0x01).** A path-exclusion gate decides which request paths
  need authentication. The `Authorization: Basic <base64>` header is then turned into
  an email and password, and a user object, in five stages. Each stage gives up
  (None) at the first malformed input.
- **Session authentication (0x02).** Sessions expire after a duration read from the
  environment. They are kept in an in-memory map (`SessionExpAuth`) and also as
  `UserSession` records in a store (`SessionDBAuth`), which logout removes.
- **User authentication service (0x03).** A user table (`DB`) supports insertion,
  first-match lookup and in-place update of named columns. A credential service
  (`Auth`) on top of it does registration with a salted password hash, login,
  sessions, logout and password reset through a one-time token.

Modules:

- `Wrappers`: Option, Result, bytes.
- `Requests`: a request's headers and cookies.
- `AuthGate`: the base authenticator.
- `Base64`: `base64.b64decode` as CPython's non-strict decoder applies it, with the
  standard encoder it inverts.
- `Utf8`: strict UTF-8 decoding with its encoder.
- `BasicCredentials`: the Basic-authentication stages.
- `IntParse`: Python's `int()` on the duration text.
- `ExpiringSessions`: the `SessionExpAuth` class.
- `DurableSessions`: the `SessionDBAuth` class.
- `UserTable`: the `DB` class and its row functions.
- `CredentialService`: the `Auth` class and the table queries.

Classes are used where the source updates state in place:

- `SessionExpAuth` keeps its session map in a field.
- `SessionDBAuth` keeps its record store in a field.
- `DB` keeps its rows in a field.
- `Auth` owns a `DB`.

Read-only operations are functions of that state. These are `user_id_for_session_id`,
`find_user_by`, `valid_login` and `get_user_from_session_id`.

Timestamps are integer microseconds. Python's `datetime` has that resolution.

## Model

| member | source | states |
|---|---|---|
| AuthGate.RequireAuth | 0x01-Basic_authentication/api/v1/auth/auth.py:10-25 | a missing path, missing list or empty list requires authentication; otherwise authentication is required exactly when no entry matches the path with a trailing slash added (wildcard entries by prefix, others by equality); the loop invariant carries the entries scanned so far |
| AuthGate.Normalize | 0x01-Basic_authentication/api/v1/auth/auth.py:16 | the normalised path always ends in a slash, and equals the path itself when that already did |
| AuthGate.TrailingSlashIrrelevant | 0x01-Basic_authentication/api/v1/auth/auth.py:16 | a path with and without its trailing slash is excluded by the same entries |
| AuthGate.NormalizeIdempotent | 0x01-Basic_authentication/api/v1/auth/auth.py:16 | normalising twice is normalising once |
| AuthGate.WildcardExcludesByPrefix | 0x01-Basic_authentication/api/v1/auth/auth.py:19-21 | an entry ending in `*` excludes exactly the paths whose normalised form starts with the entry minus the star |
| AuthGate.LiteralExcludesOnlyItself | 0x01-Basic_authentication/api/v1/auth/auth.py:22-23 | a literal entry excludes only the path whose normalised form equals it |
| AuthGate.LiteralWithoutSlashNeverMatches | 0x01-Basic_authentication/api/v1/auth/auth.py:16-23 | a literal entry without a trailing slash never matches anything |
| AuthGate.OnlyTheSetOfEntriesMatters | 0x01-Basic_authentication/api/v1/auth/auth.py:18-25 | two lists with the same entries give the same answer, whatever their order or repetitions |
| AuthGate.StatusRouteExcluded | 0x01-Basic_authentication/api/v1/auth/auth.py:16-23 | with `/api/v1/status/` in the list, the status route is excluded both with and without its trailing slash |
| AuthGate.AdminWildcardExample | 0x01-Basic_authentication/api/v1/auth/auth.py:19-21 | `/api/v1/admin*` covers `/api/v1/admin/users` and not `/api/v1/adm` |
| AuthGate.AuthorizationHeader | 0x01-Basic_authentication/api/v1/auth/auth.py:27-31 | None without a request; otherwise the value of the first header named Authorization in any ASCII case, or None |
| AuthGate.CurrentUser | 0x01-Basic_authentication/api/v1/auth/auth.py:33-35 | the base authenticator authenticates nobody |
| Requests.HeaderGet | 0x01-Basic_authentication/api/v1/auth/auth.py:31 | None exactly when no header name equals the wanted name up to ASCII case; otherwise the value of the first such header |
| Requests.CookieGet | 0x02-Session_authentication/api/v1/auth/session_db_auth.py:44 | the cookie's value exactly when the request carries a cookie of that name |
| BasicCredentials.ExtractBase64AuthorizationHeader | 0x01-Basic_authentication/api/v1/auth/basic_auth.py:13-21 | a result exactly for text starting with `Basic ` (case-sensitive), and then the scheme followed by the result is the header |
| BasicCredentials.SchemeIsCaseSensitive | 0x01-Basic_authentication/api/v1/auth/basic_auth.py:18-21 | `basic QQ==` is refused and `Basic QQ==` gives `QQ==` |
| BasicCredentials.DecodeBase64AuthorizationHeader | 0x01-Basic_authentication/api/v1/auth/basic_auth.py:23-32 | a result whenever the text base64-decodes to well-formed UTF-8 and only when it base64-decodes; the result's UTF-8 is exactly the decoded octets |
| BasicCredentials.DecodeHeaderRoundTrip | 0x01-Basic_authentication/api/v1/auth/basic_auth.py:28-30 | the standard base64 of the UTF-8 of any text decodes back to that text |
| BasicCredentials.FirstColon | 0x01-Basic_authentication/api/v1/auth/basic_auth.py:42 | the position of the first colon, with none before it; None exactly when the text has no colon |
| BasicCredentials.ExtractUserCredentials | 0x01-Basic_authentication/api/v1/auth/basic_auth.py:34-44 | a pair exactly for text holding a colon, and then the email has no colon and email, colon and password join to the text; (None, None) otherwise |
| BasicCredentials.CredentialsSplitJoin | 0x01-Basic_authentication/api/v1/auth/basic_auth.py:42-44 | an email without a colon joined by a colon to any password splits back into that email and password |
| BasicCredentials.SplitsAtFirstColonOnly | 0x01-Basic_authentication/api/v1/auth/basic_auth.py:42-44 | `a:b:c` gives email `a` and password `b:c` |
| BasicCredentials.FirstWithEmail | 0x01-Basic_authentication/api/v1/auth/basic_auth.py:55-62 | the index of the first user with that email, or None when no user has it |
| BasicCredentials.UserObjectFromCredentials | 0x01-Basic_authentication/api/v1/auth/basic_auth.py:46-66 | a user exactly when both credentials are text, the search succeeds, some user has the email and the password is valid for the first such user; the result is that user |
| BasicCredentials.CurrentUser | 0x01-Basic_authentication/api/v1/auth/basic_auth.py:68-86 | a user only when every stage succeeded, and then it is the credential check on the decoded pair |
| BasicCredentials.CurrentUserStages | 0x01-Basic_authentication/api/v1/auth/basic_auth.py:68-86 | when every stage succeeds, the answer is the credential check on the decoded pair |
| BasicCredentials.CurrentUserOfBasicHeader | 0x01-Basic_authentication/api/v1/auth/basic_auth.py:68-86 | a request whose Authorization header is `Basic ` and the base64 of `email:password` (email without a colon) authenticates exactly as the credential check on that email and password |
| Base64.SextetRoundTrip | 0x01-Basic_authentication/api/v1/auth/basic_auth.py:29 | every sextet's alphabet character decodes back to the sextet |
| Base64.EncodeLength | 0x01-Basic_authentication/api/v1/auth/basic_auth.py:29 | the standard encoding has four characters per started group of three octets |
| Base64.EncodeIsAscii | 0x01-Basic_authentication/api/v1/auth/basic_auth.py:29 | every encoding is ASCII, so the decoder accepts it as text |
| Base64.FullQuantum | 0x01-Basic_authentication/api/v1/auth/basic_auth.py:29 | decoding four data characters emits the three octets they encode and continues at a quantum boundary |
| Base64.LastQuantum | 0x01-Basic_authentication/api/v1/auth/basic_auth.py:29 | decoding the padded last quantum emits its one or two octets and stops, whatever follows |
| Base64.EncodeSplits | 0x01-Basic_authentication/api/v1/auth/basic_auth.py:29 | the encoding of a longer string is that of its first three octets followed by that of the rest |
| Base64.RunEncode | 0x01-Basic_authentication/api/v1/auth/basic_auth.py:29 | decoding an encoding from a quantum boundary appends exactly the encoded octets |
| Base64.Run | 0x01-Basic_authentication/api/v1/auth/basic_auth.py:29-32 | the decoder state machine only appends to the octets already emitted |
| Base64.Decode | 0x01-Basic_authentication/api/v1/auth/basic_auth.py:29-32 | non-ASCII text is refused (`b64decode` raises on it) |
| Base64.DecodeEncode | 0x01-Basic_authentication/api/v1/auth/basic_auth.py:29 | `b64decode` recovers every octet string from its standard encoding |
| Base64.DanglingCharacterRejected | 0x01-Basic_authentication/api/v1/auth/basic_auth.py:29-32 | the sample `QUJDQ` (one data character after a full quantum) is an error |
| Base64.NonAlphabetSkipped | 0x01-Basic_authentication/api/v1/auth/basic_auth.py:29 | the samples `Q!Q==` and `QQ==QUJD` both decode to `A` |
| Base64.StepQuantum | 0x01-Basic_authentication/api/v1/auth/basic_auth.py:29 | reading the first quantum of a longer encoding emits its three octets and continues with the rest of the encoding |
| Base64.FullQuanta | 0x01-Basic_authentication/api/v1/auth/basic_auth.py:29 | decoding the encoding of whole quanta emits their octets and leaves the decoder at a quantum boundary, whatever follows |
| Base64.RunStopsAtPadding | 0x01-Basic_authentication/api/v1/auth/basic_auth.py:29 | decoding an encoding that ends in padding emits its octets and stops, whatever follows |
| Base64.PaddingEndsInput | 0x01-Basic_authentication/api/v1/auth/basic_auth.py:29 | for every octet string whose length is not a multiple of three, its encoding followed by any ASCII text decodes to it: input after complete padding is ignored |
| Base64.DanglingDataRejected | 0x01-Basic_authentication/api/v1/auth/basic_auth.py:29-32 | for every octet string of whole quanta, its encoding followed by a single data character is an error |
| Base64.Data | 0x01-Basic_authentication/api/v1/auth/basic_auth.py:29 | the characters the decoder reads: no more than the text, and each one an alphabet or pad character |
| Base64.RunSkipsNoise | 0x01-Basic_authentication/api/v1/auth/basic_auth.py:29 | from every decoder state, the text and its alphabet and pad characters alone give the same answer |
| Base64.DataCharacterKept | 0x01-Basic_authentication/api/v1/auth/basic_auth.py:29 | the case of the previous row where the text starts with a data character |
| Base64.NoiseSkipped | 0x01-Basic_authentication/api/v1/auth/basic_auth.py:29 | for every ASCII text, removing the characters outside the alphabet does not change what `b64decode` gives |
| Utf8.DecodeFirstEncodeChar | 0x01-Basic_authentication/api/v1/auth/basic_auth.py:30 | the bytes of one scalar value decode to that value and their own length |
| Utf8.EncodeCharDecodeFirst | 0x01-Basic_authentication/api/v1/auth/basic_auth.py:30 | a well-formed sequence at the start re-encodes to exactly its own bytes |
| Utf8.DecodeEncode | 0x01-Basic_authentication/api/v1/auth/basic_auth.py:30 | decoding the UTF-8 of any string gives that string |
| Utf8.EncodeChar | 0x01-Basic_authentication/api/v1/auth/basic_auth.py:30 | one scalar value takes one to four bytes |
| Utf8.Encode | 0x01-Basic_authentication/api/v1/auth/basic_auth.py:30 | a string takes at least one byte per character |
| Utf8.DecodeFirst | 0x01-Basic_authentication/api/v1/auth/basic_auth.py:30-32 | a decoded first character spans one to four bytes, all present |
| Utf8.Decode | 0x01-Basic_authentication/api/v1/auth/basic_auth.py:30-32 | whatever decodes re-encodes to exactly the same bytes, so decoding is injective and accepts only canonical encodings; never more characters than bytes |
| Utf8.DecodeStep | 0x01-Basic_authentication/api/v1/auth/basic_auth.py:30 | a decoded first character followed by characters that re-encode to the remaining bytes re-encodes to all of the bytes |
| Utf8.StrayContinuationRejected | 0x01-Basic_authentication/api/v1/auth/basic_auth.py:30-32 | a lone continuation byte is refused |
| Utf8.SurrogateRejected | 0x01-Basic_authentication/api/v1/auth/basic_auth.py:30-32 | the encoded form of a surrogate is refused |
| IntParse.ParseInt | 0x02-Session_authentication/api/v1/auth/session_exp_auth.py:16 | a value exactly for text that, without surrounding ASCII whitespace and one optional sign, is digits with single underscores between them |
| IntParse.ParseSigned | 0x02-Session_authentication/api/v1/auth/session_exp_auth.py:16 | a value exactly for an optional sign followed by well-formed digits |
| IntParse.ParseShow | 0x02-Session_authentication/api/v1/auth/session_exp_auth.py:16 | the printed form of every integer parses back to it |
| IntParse.LeadingSpaceIgnored | 0x02-Session_authentication/api/v1/auth/session_exp_auth.py:16 | leading whitespace does not change the result |
| IntParse.UnderscoreBetweenDigits | 0x02-Session_authentication/api/v1/auth/session_exp_auth.py:16 | `1_000` is 1000 |
| IntParse.ParsePadded | 0x02-Session_authentication/api/v1/auth/session_exp_auth.py:16 | surrounding whitespace, a `+` or `-` sign and leading zeros around the digits of a number parse to that number, negated for `-` |
| IntParse.PaddedCore | 0x02-Session_authentication/api/v1/auth/session_exp_auth.py:16 | a sign and leading zeros before the digits of a number have no whitespace at either end and are worth that number, negated for `-` |
| IntParse.PaddedDurations | 0x02-Session_authentication/api/v1/auth/session_exp_auth.py:16 | ` 60\n`, `+60` and `060` each give 60 |
| IntParse.TrimStartSpaces | 0x02-Session_authentication/api/v1/auth/session_exp_auth.py:16 | leading whitespace is stripped entirely |
| IntParse.TrimEndSpaces | 0x02-Session_authentication/api/v1/auth/session_exp_auth.py:16 | trailing whitespace is stripped entirely |
| IntParse.AccumulateZeros | 0x02-Session_authentication/api/v1/auth/session_exp_auth.py:16 | leading zeros do not change the value |
| IntParse.MalformedTextRejected | 0x02-Session_authentication/api/v1/auth/session_exp_auth.py:16-18 | a double underscore, a leading underscore and empty text are refused |
| ExpiringSessions.DurationFromConfig | 0x02-Session_authentication/api/v1/auth/session_exp_auth.py:12-18 | the parsed integer when the variable is set and parses, 0 otherwise |
| ExpiringSessions.DurationOfPrintedInteger | 0x02-Session_authentication/api/v1/auth/session_exp_auth.py:15-16 | any integer written in the variable is the duration used |
| ExpiringSessions.SessionExpAuth.constructor | 0x02-Session_authentication/api/v1/auth/session_exp_auth.py:12-18 | the duration is the configured one and the session map is the given one |
| ExpiringSessions.SessionExpAuth.CreateSession | 0x02-Session_authentication/api/v1/auth/session_exp_auth.py:20-30 | returns the parent's session id; when there is one, that entry becomes the user id with the current time and no other entry changes |
| ExpiringSessions.SessionExpAuth.UserIdForSessionId | 0x02-Session_authentication/api/v1/auth/session_exp_auth.py:32-47 | a user id exactly when the entry exists, holds a user id and is valid now (expiry disabled, or a creation time whose deadline is not past); it is the stored user id |
| ExpiringSessions.ExpiryIsPermanent | 0x02-Session_authentication/api/v1/auth/session_exp_auth.py:44-46 | a lookup that fails at some time fails at every later time |
| ExpiringSessions.DeadlineIsInclusive | 0x02-Session_authentication/api/v1/auth/session_exp_auth.py:44-47 | a session still resolves at its deadline and no longer one microsecond after |
| ExpiringSessions.DisabledExpiryIgnoresAge | 0x02-Session_authentication/api/v1/auth/session_exp_auth.py:40-41 | with a duration of 0 or less the stored user id is returned at any time |
| ExpiringSessions.ExpiryScenario | 0x02-Session_authentication/api/v1/auth/session_exp_auth.py:20-47 | with `SESSION_DURATION=1`, a new session resolves half a second later, no longer two seconds later, and its entry is kept |
| DurableSessions.FirstSession | 0x02-Session_authentication/api/v1/auth/session_db_auth.py:28-30 | the index of the first record with that session id, or None when no record has it |
| DurableSessions.SessionDBAuth.constructor | 0x02-Session_authentication/api/v1/auth/session_exp_auth.py:12-18 | the inherited state is read from the configuration and the store holds the given records |
| DurableSessions.SessionDBAuth.CreateSession | 0x02-Session_authentication/api/v1/auth/session_db_auth.py:12-20 | the inherited creation, then exactly one new record with the user id, session id and current time appended; nothing is stored when the parent gives no id |
| DurableSessions.SessionDBAuth.UserIdForSessionId | 0x02-Session_authentication/api/v1/auth/session_db_auth.py:22-37 | a user id exactly when some record has the session id and the first such record holds a user id and is valid now; it is that record's user id |
| DurableSessions.SessionDBAuth.DestroySession | 0x02-Session_authentication/api/v1/auth/session_db_auth.py:39-54 | True exactly when there is a request with a session cookie that resolves to a user now; then the first record with that id is removed and the rest keep their order; otherwise nothing changes |
| DurableSessions.RemovalTakesOneRecord | 0x02-Session_authentication/api/v1/auth/session_db_auth.py:50-53 | the removal takes out exactly one record, the one with that session id |
| DurableSessions.DestroyedSessionIsGone | 0x02-Session_authentication/api/v1/auth/session_db_auth.py:50-53 | with unique session ids in the store, a destroyed session no longer resolves |
| DurableSessions.LogoutScenario | 0x02-Session_authentication/api/v1/auth/session_db_auth.py:39-54 | logging out with an expired session is refused, and with a live one succeeds |
| UserTable.FirstMatch | 0x03-user_authentication_service/db.py:71 | the index of the first row matching every filter, with no earlier row matching; None when no row matches |
| UserTable.FindUserBy | 0x03-user_authentication_service/db.py:56-76 | InvalidRequestError exactly when a filter names no column; NoResultFound exactly when no row matches; otherwise the first matching row |
| UserTable.SingleFilter | 0x03-user_authentication_service/db.py:71 | a one-filter query selects the rows whose column holds the value, None selecting NULL |
| UserTable.FindById | 0x03-user_authentication_service/db.py:89 | with unique ids, the id filter finds the row holding that id |
| UserTable.SetColumn | 0x03-user_authentication_service/db.py:92-93 | the named column holds the value afterwards and every other column is unchanged |
| UserTable.ApplyUpdates | 0x03-user_authentication_service/db.py:91-95 | no error exactly when every name is a column; an error names a key that is not a column; columns not named keep their values |
| UserTable.ApplyUpdatesSetsEveryColumn | 0x03-user_authentication_service/db.py:91-93 | with distinct names that are all columns, every named column ends up holding its value |
| UserTable.ApplyUpdatesStopsAtFirstBadName | 0x03-user_authentication_service/db.py:91-95 | at the first bad name the row is as if only the names before it were given, and ValueError names it |
| UserTable.UpdateOneColumn | 0x03-user_authentication_service/db.py:91-93 | updating one column sets it and raises nothing |
| UserTable.UpdateTwoColumns | 0x03-user_authentication_service/db.py:91-93 | updating two columns sets them in order and raises nothing |
| UserTable.ApplyUpdatesStep | 0x03-user_authentication_service/db.py:91-93 | one step of the loop sets the first column, then the rest are processed |
| UserTable.UpdateStep | 0x03-user_authentication_service/db.py:91-93 | one pass of the update loop on a column keeps ids unique, and the remaining updates still lead to the same final row |
| UserTable.SetColumnKeepsIdsDistinct | 0x03-user_authentication_service/db.py:92-93 | setting one column of a row keeps ids unique, given that a new id is free |
| UserTable.MaxId | 0x03-user_authentication_service/db.py:51-53 | the largest id of a non-empty table: no row has a larger id and some row holds it |
| UserTable.NextId | 0x03-user_authentication_service/db.py:51-53 | 1 in an empty table, one past the largest id otherwise, so held by no existing row |
| UserTable.DB.constructor | 0x03-user_authentication_service/db.py:21-28 | a new database has an empty table |
| UserTable.DB.AddUser | 0x03-user_authentication_service/db.py:40-54 | exactly one row is appended, with a fresh id, the email and hash, and no session or reset token; it is returned and ids stay unique |
| UserTable.DB.UpdateUser | 0x03-user_authentication_service/db.py:78-97 | NoResultFound and no change when no row has the id; otherwise only that row changes, to the result of applying the updates in order, and the error is theirs; ids stay unique |
| CredentialService.EmailFilterSelects | 0x03-user_authentication_service/auth.py:64 | the email filter selects exactly the rows holding that email |
| CredentialService.UserByEmail | 0x03-user_authentication_service/auth.py:64 | a row holding the email, None exactly when no row holds it, and the only such row when emails are unique |
| CredentialService.ValidLogin | 0x03-user_authentication_service/auth.py:70-86 | True only when some row with the email has a hash that the password checks against; with unique emails, exactly then |
| CredentialService.UserFromSessionId | 0x03-user_authentication_service/auth.py:106-122 | None for a missing id or when no row holds it; otherwise the first row holding that session id |
| CredentialService.UserByResetToken | 0x03-user_authentication_service/auth.py:166 | the first row whose reset token equals the given one, a missing token selecting rows without a token; None when there is none |
| CredentialService.Auth.constructor | 0x03-user_authentication_service/auth.py:43-47 | a new service owns a new, empty database |
| CredentialService.Auth.RegisterUser | 0x03-user_authentication_service/auth.py:49-68 | ValueError and no change when the email is taken; otherwise one new row with the email and the salted hash of the password; emails stay unique |
| CredentialService.Auth.CreateSession | 0x03-user_authentication_service/auth.py:88-104 | None and no change for an unknown email; otherwise the fresh id is stored on that user's row only and returned |
| CredentialService.Auth.DestroySession | 0x03-user_authentication_service/auth.py:124-131 | NoResultFound and no change when no row has the id; otherwise that row's session id is cleared and nothing else changes |
| CredentialService.Auth.GetResetPasswordToken | 0x03-user_authentication_service/auth.py:133-152 | ValueError and no change for an unknown email; otherwise the fresh token is stored on that user's row only and returned |
| CredentialService.Auth.UpdatePassword | 0x03-user_authentication_service/auth.py:154-172 | ValueError and no change when no row has the token; otherwise that row gets the salted hash of the new password and its token cleared; a missing token selects the first row without one |
| CredentialService.Auth.ResetRow | 0x03-user_authentication_service/auth.py:166-170 | the lookup by token and the update of the selected row, with no other row changed |
| CredentialService.Auth.UpdatePasswordChecked | 0x03-user_authentication_service/auth.py:154-172 | as `update_password`, except that a missing token is refused, so only a row holding the presented token is ever reset |
| CredentialService.EmailsUnchanged | 0x03-user_authentication_service/db.py:91-93 | updating a row without touching its email keeps emails unique |
| CredentialService.PasswordReset | 0x03-user_authentication_service/auth.py:168-170 | after a reset the row has the new hash and no token, and its id, email and session are unchanged |
| CredentialService.RegistrationKeepsEmailsUnique | 0x03-user_authentication_service/auth.py:63-68 | a row for an email no row holds keeps emails unique |
| CredentialService.RegisteredUserCanLogIn | 0x03-user_authentication_service/auth.py:63-86 | right after registration, the email and password given log in |
| CredentialService.NewSessionResolvesToItsUser | 0x03-user_authentication_service/auth.py:98-122 | a session id just stored on a row, and held by no other row, resolves to that row |
| CredentialService.LogoutEndsSession | 0x03-user_authentication_service/auth.py:124-131 | after logout the row's former session id, held by no other row, no longer resolves |
| CredentialService.ResetTokenIsOneTime | 0x03-user_authentication_service/auth.py:166-170 | after a reset no row holds the used token, so a second use is refused |
| CredentialService.ResetPasswordLogsIn | 0x03-user_authentication_service/auth.py:166-170 | after a reset the row's owner logs in with the new password |
| CredentialService.OneRow | 0x03-user_authentication_service/auth.py:64-122 | on a table of one row, the email, session and token lookups find that row exactly when it holds the key, and login checks the password against its hash |
| CredentialService.SessionJourney | 0x03-user_authentication_service/auth.py:88-131 | on a table holding one registered row, a new session resolves to its user, and after logout it no longer resolves; the table is as before |
| CredentialService.ResetJourney | 0x03-user_authentication_service/auth.py:133-172 | on a table holding one registered row, a reset with the issued token lets the new password log in, and the token is refused the second time |
| CredentialService.UserJourney | 0x03-user_authentication_service/auth.py:49-172 | register, refused second registration, login with the wrong password refused and the right one accepted, session lookup, logout, reset token, reset, login with the new password, and refused reuse of the token |
| CredentialService.MissingTokenTakesOverAccount | 0x03-user_authentication_service/auth.py:166 | when some row has no pending reset, a missing token selects such a row, and the password set through it then logs into that account |

## Left out

- Flask routing, the `before_request` hooks and the HTTP responses are not modelled. The request is the `Requests.Request` value.
- The parent `SessionAuth` is not part of this model: its uuid generation and cookie name are not modelled. The session id it produces (or None) is a parameter of `CreateSession`, and the cookie name is a parameter of `DestroySession`.
- `UserSession.load_from_file`, `save` and `remove` persist the store to a file. The store is a field, and persistence and reloading are not modelled.
- The environment, the clock, uuid4 and bcrypt's random salt are not modelled. Each becomes a parameter: the raw `SESSION_DURATION` text, `now` in microseconds, the fresh id or token, and the salt.
- bcrypt is a `Hasher` with one assumed property: a password checks against its own hash. Wrong passwords failing, and bcrypt's 72-byte truncation, are therefore not modelled. `is_valid_password` of the 0x01 user model is likewise a parameter.
- A failing `User.search` is the `None` store. Search results are taken in store order.
- IntParse.ParseInt: Python's `int` also accepts non-ASCII digits and whitespace; only ASCII is modelled.
- Requests.HeaderGet: header names are compared after ASCII lower-casing, not full Unicode case folding.
- Requests.HeaderGet: returns the first header of that name. The WSGI layer joins repeated headers with commas before Flask sees them, and that joining is not modelled.
- IntParse.ParseInt: the 4300-digit limit of Python 3.11+ `int` is not modelled. Longer text parses here, where Python raises and the duration falls back to 0.
- ExpiringSessions.SessionExpAuth.UserIdForSessionId: computing the deadline raises OverflowError in Python when it lies past `datetime.max` (year 9999) or the duration exceeds 999999999 days. The model uses unbounded integers and computes a deadline for every duration.
- DurableSessions.SessionDBAuth.UserIdForSessionId: the same deadline overflow is not modelled.
- ExpiringSessions.DeadlineIsInclusive: holds in Python only for deadlines within the `datetime` range; outside it the lookup raises.
- SQLite type affinity and the SQL text of queries are not modelled. A filter compares a column with a typed value.
- UserTable.ApplyUpdates: model attributes other than the five columns (which `hasattr` would accept) are treated as bad names.
- UserTable.DB.UpdateUser requires a new primary key to be free. The database would reject a duplicate at commit time.
- UserTable.DB.UpdateUser: a failed update is not rolled back. Earlier columns stay set, as on the in-session object.
- `DB._session` memoisation, the engine, and `drop_all`/`create_all` are not modelled. A new DB is an empty table.
- Concurrency and request interleaving are not modelled. Each operation is atomic.
- CredentialService.Auth.UpdatePassword: a missing new password raises an AttributeError in Python (`password.encode`). The model takes the password as text.
- CredentialService.Auth.RegisterUser: a missing password raises an AttributeError in Python, and a missing email fails the NOT NULL constraint on `email` when the row is committed. The model takes both as text.
- CredentialService.ValidLogin: a missing password raises an AttributeError in Python (`password.encode`). The model takes the password as text.

## Findings

| source | as written | input that shows it | evidently intended | confidence | as-written member | corrected member |
|---|---|---|---|---|---|---|
| 0x03-user_authentication_service/auth.py:166 | `find_user_by(reset_token=reset_token)` with `reset_token` None filters on `reset_token IS NULL`. `PUT /reset_password` (app.py:130-134) passes None when the form has no token | a table with a registered user who never asked for a reset, and a PUT without `reset_token`: that user's password is replaced and logs in | a missing token is an invalid reset token (ValueError, 403) | not executed | CredentialService.MissingTokenTakesOverAccount | CredentialService.Auth.UpdatePasswordChecked |
