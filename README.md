# WebBankingApplication core in Dafny

This project models the server-side core of a small web bank and its
client-side cookie codec, and proves properties of the model:

- **Money** (`money.dfy`): the Decimal128 values balances are stored as.
  - `toFixed` and `Decimal128.fromString` on exact reals.
  - `Number` on plain-notation strings.
  - The four conversions of `backend/utils/money.js`.
- **Store** (`store.dfy`): the `User` and `Transaction` documents.
  - The schema's setters, defaults and required fields.
  - The unique e-mail index.
  - A `Bank` class holding `users` (a map from id to user), the e-mail index, the transaction log (a sequence) and the id allocator, with the invariant Mongoose maintains.
- **Account** (`account.dfy`): the handlers of `backend/routes/account.js`.
  - Reading a balance.
  - Transferring money inside one database transaction.
  - Adjusting a balance.

  Each handler is a method on the `Bank`. Its contract ties the response and the new state to a specification function of the old state. The properties are lemmas about that function.
- **Auth** (`auth.dfy`): the body checks and the account lifecycle of `backend/routes/auth.js`, as methods on the `Bank`:
  - signup;
  - activation by PIN and token;
  - login.
- **Middleware** (`middleware.dfy`): bearer-token extraction (section 2.1 of RFC 6750, with the scheme name matched case-insensitively as section 2.1 of RFC 7235 allows) and the two middlewares that set `req.user` on a `Request` object.
- **Uri** (`uri.dfy`): `encodeURIComponent` and `decodeURIComponent` over UTF-8, including the `URIError` cases of decoding.
- **Cookies** (`cookies.dfy`): `frontend/src/lib/cookies.ts`.
  - `document.cookie` belongs to a `Page`, whose browser jar is a list of name/value cookies.
  - Assigning a string stores one cookie as sections 5.2 and 5.3 of RFC 6265 describe: name, value and Max-Age, where a Max-Age of zero or less removes the cookie.
  - Reading gives the cookies joined by `"; "` (section 5.4).
  - The source treats the jar as a string. Here that string is the function `CookieHeader` of the jar, so set-then-get and clear-then-get can be stated over the browser's own behaviour.
- **Strings, Js, Http** (`strings.dfy`, `js.dfy`, `http.dfy`): the JavaScript string operations the core uses, the `/.+@.+\..+/` pattern, `Number(v)` and truthiness of request values, and the shape of Express responses.

Oracles and effects become parameters:
- bcrypt hashes, and `bcrypt.compare` as a function;
- `jwt.verify` and `jwt.sign` as functions;
- `Date.now` as `now`;
- whether `JWT_ACCESS_SECRET` is set, as a boolean;
- database faults inside the transfer transaction, as a `Fault` value naming the step that throws;
- database faults of the activation handler's lookup and save, as an `ActivationFault`.

Behaviour worth knowing, and visible in the model:
- **Transfer to yourself.** When a sender transfers to their own e-mail, both new balances are computed from the balance read first, and the recipient's save comes second. The balance therefore ends at the old balance plus the amount, and one record with equal sender and receiver is logged (`SettleToSelf`).
- **Sub-cent amounts.** An amount below half a cent passes the `amt > 0` check and is logged as `0.00`. Between two distinct users whose balances are whole cents it moves nothing (`TinyAmount`). A balance that an adjustment left with three digits can lose value this way: a sender at 100.005 who sends 0.004 to a user at 50.00 ends at 100.00, and the recipient stays at 50.00 (`SubCentCanVanish`).
- **Negative zero.** `toFixed` keeps the sign of a tiny negative number. So `-0.001` is stored as `-0.00`, and quantising that again gives `0.00` (`NegativeZeroNotIdempotent`). Quantisation is idempotent in value, and exactly idempotent otherwise (`QuantizeIdempotent`).
- **Login status check.** Only the status `inactive` is refused, so a `blocked` user can log in (`LoginSucceedsIff`).

Facts about the code that the model keeps:
- The comment at `backend/routes/account.js:10` calls the first balance 500.00. Signup stores `Decimal128.fromString('500.000')` (`backend/routes/auth.js:83`), so a new user's balance reads as "500.000". `GET /balance` shows `"500.00"` only for a user without a balance.
- `POST /update-balance` has no lower bound, so an adjustment can leave a negative balance (`AdjustCanGoNegative`). It rounds to three digits (`backend/routes/account.js:134-136`), while transfers round to two.
- Every transfer runs inside `withTransaction`, and there is no other path for the writes.
- The `Transaction` schema declares a minimum of `'0.01'` on a Decimal128 `amount`. The model does not enforce it, because Mongoose's Decimal128 type has no `min` validator.

## Model

| member | source | states |
|---|---|---|
| Money.DecimalToString | backend/utils/money.js:5-13 | `"0.00"` for a missing value; otherwise a string that `Decimal128.fromString` reads back as exactly the stored decimal, so nothing is re-rounded |
| Money.DecimalToNumberIsNumberOfString | backend/utils/money.js:15-20 | `Number` of the stored string is the stored value (0 for none), and Infinity exactly when that is too large for a double; `decimal128ToNumber` is that number when finite and 0 otherwise |
| Money.NumberToDecimal128 | backend/utils/money.js:22-27 | for \|x\| below 10^21, exactly two fractional digits; non-finite input gives 0.00; otherwise the sign of the input and the integer nearest to \|x\|·100, ties rounded up |
| Money.NumberToDecimal128IsFromString | backend/utils/money.js:22-27 | `Decimal128.fromString` of `val.toFixed(2)`, or of `'0.00'` for a non-finite value, is NumberToDecimal128 |
| Money.NumberToDecimal128Error | backend/utils/money.js:22-27 | the stored value is within half a cent of the number |
| Money.StringToDecimal128 | backend/utils/money.js:29-33 | for a numeric string, `numberToDecimal128(Number(s))`; for any other string, 0.00 |
| Money.OverflowingNumeral | backend/utils/money.js:30 | `Number("1e309")` is not finite: the numeral is beyond the largest double |
| Money.OverflowingStringIsZero | backend/utils/money.js:29-33 | `stringToDecimal128("1e309")` is 0.00, through the `isFinite` fallback |
| Money.QuantizeIdempotent | backend/utils/money.js:15-27 | for a number below 10^21 in magnitude, re-quantising a quantised value keeps its value, and gives the identical decimal unless it is a negative zero |
| Money.NegativeZeroNotIdempotent | backend/utils/money.js:15-27 | -0.001 is stored as "-0.00", and reading that back and quantising gives "0.00" |
| Money.WholeCentsRoundTrip | backend/utils/money.js:15-27 | for every whole-cent value c below 10^21 in magnitude, `decimal128ToNumber(numberToDecimal128(c)) == c` |
| Money.RoundedMagnitude | backend/utils/money.js:24 | the coefficient `toFixed` keeps is within half a unit of \|x\|·10^f, the larger on a tie |
| Money.QuantizeError | backend/utils/money.js:24-26 | `fromString(x.toFixed(f))` is within half a unit of the f-th digit of x, for either sign |
| Money.FromStringToFixed | backend/utils/money.js:24-26 | `Decimal128.fromString(x.toFixed(f))` is, for \|x\| below 10^21, the decimal with x's sign, the rounded coefficient and exactly f digits |
| Money.ParseFixedString | backend/utils/money.js:26 | `Decimal128.fromString` reads a `toFixed` string back as exactly the sign, coefficient and digit count it spells |
| Money.ParseNumberFixedString | backend/utils/money.js:17 | `Number` of a fixed-point string is the value it spells, and Infinity when that value is too large for a double |
| Money.ZeroString | backend/utils/money.js:6 | the fallback `"0.00"` is the two-digit spelling of zero |
| Account.BalanceString | backend/routes/account.js:9-21 | `"500.00"` for a user without a balance; otherwise a string that reads back as exactly the stored balance |
| Account.StoredNumberParses | backend/routes/account.js:74 | `parseFloat` of the stored balance's string is the stored value (Infinity when that is too large for a double), and 0 when there is none |
| Account.GetBalance | backend/routes/account.js:24-42 | 401 without a user id or for an unknown user; otherwise 200 with the stored balance's string, or "500.00" for none |
| Account.RecipientOf | backend/routes/account.js:68 | the recipient found for an e-mail is a stored user |
| Account.Transfer | backend/routes/account.js:45-110 | the answer, the users and the log after `POST /transactions` are those of TransferSpec; a rejected transfer changes nothing, a committed one appends exactly its one record |
| Account.RunTransaction | backend/routes/account.js:61-96 | inside the transaction: a thrown error at any step leaves users and log unchanged; otherwise both balances and the record are written |
| Account.Commit | backend/routes/account.js:80-95 | both new balances are computed from the values read before either save, then one record with the amount rounded to cents is appended |
| Account.TransferValidatesFirst | backend/routes/account.js:49-59 | without a sender id (401) or with an invalid body (400) the answer does not depend on the store or on database faults |
| Account.OverflowingTransferRefused | backend/routes/account.js:55-59 | an amount of "1e309" is answered 400 "Invalid request body" whatever the store holds and before any database call |
| Account.TransferCommitsIff | backend/routes/account.js:51-96 | a transfer commits exactly when the body is valid, the sender exists, a user holds the lower-cased e-mail, the balance covers the amount and no database error occurs; it then settles those two users and logs their ids |
| Account.TransferFaultAnswers | backend/routes/account.js:99-106 | a database error never commits, and one from the first lookup is answered by the `catch`: the error's own status or 500, and its own message or "Transfer failed" |
| Account.RecipientIsOwner | backend/routes/account.js:68-72 | the recipient is the one user whose stored e-mail is the normalised requested one, and there is none exactly when no user holds it |
| Account.SettleFrame | backend/routes/account.js:84-88 | the two saves change only the balances of the sender and the recipient |
| Account.SettleKeepsConsistent | backend/routes/account.js:84-95 | a committed transfer keeps the store invariant (unique e-mails, records referring to existing users) |
| Account.SettleSenderNotNegative | backend/routes/account.js:74-88 | a sender whose balance covers a positive amount is never left negative |
| Account.SettleConserves | backend/routes/account.js:80-93 | between two users with whole-cent balances, a whole-cent amount leaves the sender with exactly the amount less and the recipient with exactly the amount more, so their sum is conserved; the record holds the amount |
| Account.SettleExactBalance | backend/routes/account.js:76-84 | transferring one's whole balance succeeds and leaves "0.00" |
| Account.SettleToSelf | backend/routes/account.js:62-88 | sending to one's own e-mail leaves that user with the old balance plus the amount |
| Account.TinyAmount | backend/routes/account.js:57-93 | between two distinct users with whole-cent balances, an amount below half a cent passes the check, is logged as 0.00 and leaves both balances unchanged |
| Account.SubCentCanVanish | backend/routes/account.js:74-88 | with a three-digit sender balance of 100.005, left by an adjustment, a transfer of 0.004 to a holder of 50.00 is covered and stores 100.00 and 50.00, so the two balances lose half a cent between them |
| Account.QuantizeCents | backend/routes/account.js:80-85 | a whole-cent value is its own two-digit quantisation |
| Account.UpdateBalance | backend/routes/account.js:113-143 | the answer and the users after `POST /update-balance` are those of AdjustSpec; only that user's balance changes and no record is logged |
| Account.AdjustSucceedsIff | backend/routes/account.js:116-132 | an adjustment succeeds exactly for a user id, a finite amount and an existing user; a non-finite amount is answered 400 before the lookup |
| Account.AdjustedBalanceIsRounded | backend/routes/account.js:134-136 | for a sum below 10^21 in magnitude, the new balance has three fractional digits and is within half a thousandth of the exact sum |
| Account.OverflowingAdjustRefused | backend/routes/account.js:122-126 | an amount of "1e309" is answered 400 "Invalid amount" before the user is looked up |
| Account.AdjustCanGoNegative | backend/routes/account.js:134-137 | there is no lower bound: a large negative amount leaves a negative balance |
| Store.ApplySchema | backend/models/User.js:5-15 | a document is created exactly when the normalised e-mail and the password are non-empty; e-mail lower-cased and trimmed, balance defaulting to 0.00, status to inactive, other fields as given |
| Store.NormalizeEmailIdempotent | backend/models/User.js:6 | the `lowercase`/`trim` setters are idempotent and absorb an earlier `toLowerCase` |
| Store.LookupEmailNormalized | backend/routes/account.js:68 | the lookup gives the same user whether or not the query was lower-cased or normalised first, so the route's `toLowerCase()` and the schema's setters applied to the query agree |
| Store.LookupEmailFinds | backend/models/User.js:6 | under the store invariant a found user holds the normalised e-mail, and no user holds it when nothing is found |
| Store.InsertConsistent | backend/models/User.js:6 | inserting a user with a fresh, normalised, non-empty e-mail and a password keeps the store invariant |
| Store.UpdateConsistent | backend/models/Transaction.js:5-11 | changing other fields of existing users and logging records between existing users keeps the store invariant |
| Store.Bank.EmailsUnique | backend/models/User.js:6 | no two users share an e-mail |
| Store.Bank.FindByEmail | backend/routes/account.js:68 | `findOne({ email })` finds the one user with the normalised e-mail, or proves there is none |
| Store.Bank.FindById | backend/routes/account.js:62 | `findById` returns the stored user, or nothing for an unknown id |
| Store.Bank.SetBalance | backend/routes/account.js:84-87 | saving a balance changes that user's balance and nothing else |
| Store.Bank.SetActivated | backend/routes/auth.js:165-168 | saving an activation sets status active, unsets both verification fields and changes nothing else |
| Store.Bank.Append | backend/models/Transaction.js:5-11 | a record referring to two existing users is appended to the log and nothing else changes |
| Store.Bank.Create | backend/routes/auth.js:78-88 | `User.create` succeeds exactly when the schema accepts the fields and no user holds the e-mail; it then adds exactly one user under a fresh id |
| Js.MatchHasAt | backend/routes/auth.js:12-14 | a string the e-mail pattern accepts contains "@" |
| Js.LineBreakBreaksMatch | backend/routes/auth.js:12-14 | `.` matches no line break: a string that is a part without ".", a line break, then a part without "@" does not match |
| Js.EmailPatternExamples | backend/routes/auth.js:12-14 | "a@b.c" and " @ . " match; "a@b.", "@b.c" and "a@.c" do not |
| Js.NumeralStringIsNumber | backend/routes/account.js:55 | `Number(amount)` gives the same number for an amount sent as a decimal string and for the same amount sent as a JSON number |
| Auth.NonEmptyStringIff | backend/routes/auth.js:16-18 | `isNonEmptyString` holds exactly for a string with a non-whitespace character |
| Auth.ValidEmailNormalizesNonEmpty | backend/routes/auth.js:12-14 | a valid e-mail stays non-empty after lower-casing and trimming |
| Auth.Signup | backend/routes/auth.js:56-115 | the answer and the users after `POST /signup` are those of SignupSpec; a refused signup creates nothing, a successful one exactly one user under a fresh id |
| Auth.SignupChecksBodyFirst | backend/routes/auth.js:58-62 | an invalid body is answered 400 whatever the store holds |
| Auth.SignupRefusesTakenEmail | backend/routes/auth.js:64-68 | an e-mail some user holds, in any ASCII case, is answered 400 "Email already registered" |
| Auth.SignupCreatesInactiveUser | backend/routes/auth.js:70-86 | with a valid body, a free e-mail and the secret set, the new user has the normalised e-mail, status inactive, balance "500.000", the PIN hash and an expiry 30 minutes from now |
| Auth.Activate | backend/routes/auth.js:118-186 | the answer and the users after the activation link are those of ActivateSpec, database errors of the lookup and the save included; a refused activation changes nothing |
| Auth.CompleteActivation | backend/routes/auth.js:153-176 | once the user is found, the answer and the users are those of CheckPin; only a passing PIN check with a successful save activates that one user |
| Auth.ActivateSucceedsIff | backend/routes/auth.js:123-168 | activation succeeds exactly when each check in the handler's order passes: pin and token present, secret set, token verifies with a valid e-mail of a stored user, fields initialised, not expired, PIN matches, and neither the lookup nor the save throws |
| Auth.ActivationFaultRedirects | backend/routes/auth.js:147-185 | a database error never activates; a failed lookup after an accepted payload is answered by the `catch` redirect, and any redirect a fault causes is that one |
| Auth.ActivationReasonDecodes | backend/routes/auth.js:179-185 | the `catch` redirects 302 to `${FRONT_BASE_URL}/login?activated=0&reason=` plus the URI-encoded message, or "Activation failed"; decoding the reason gives the message back |
| Auth.ExpiredPinRefused | backend/routes/auth.js:156-158 | a PIN past its expiry is refused even when it matches |
| Auth.SecondActivationRefused | backend/routes/auth.js:153-168 | after a successful activation the same link is refused with "Activation not initialized" |
| Auth.Login | backend/routes/auth.js:189-219 | the answer of `POST /login` is LoginSpec, and nothing changes |
| Auth.LoginSucceedsIff | backend/routes/auth.js:193-215 | login succeeds exactly for a valid body, a configured secret and a stored user with the normalised e-mail who is not inactive and whose password matches; the token is signed over that user's id and e-mail |
| Auth.ActivatedUserPassesStatusCheck | backend/routes/auth.js:203-205 | a freshly activated user is not refused as "Account not activated" |
| Middleware.ExtractTokenIff | backend/middleware/authMiddleware.js:7-27 | the token is t exactly when the header is "Bearer" in any ASCII case, one space, and t without further spaces |
| Middleware.ExtractedIsBearer | backend/middleware/authMiddleware.js:14-26 | an extracted token comes from a header of the form scheme, space, token |
| Middleware.BearerIsExtracted | backend/middleware/authMiddleware.js:14-26 | every such header yields its token |
| Middleware.ExtractTokenMissing | backend/middleware/authMiddleware.js:10-12 | a missing or empty header gives no token |
| Middleware.ExtractTokenExtraSpace | backend/middleware/authMiddleware.js:14-18 | a second space makes three parts and gives no token |
| Middleware.ExtractTokenOtherScheme | backend/middleware/authMiddleware.js:20-24 | another scheme gives no token |
| Middleware.ExtractTokenAnyCase | backend/middleware/authMiddleware.js:22 | the scheme matches in any ASCII case |
| Middleware.ExtractTokenEmpty | backend/middleware/authMiddleware.js:26 | "Bearer " yields the empty token verbatim |
| Middleware.RequireAuth | backend/middleware/authMiddleware.js:39-53 | a missing or empty token gives 401 "Unauthorized - token not found", any verification failure 401 "Unauthorized", neither calling `next`; otherwise `req.user` is the payload's `{ userId, email }` |
| Middleware.OptionalAuth | backend/middleware/authMiddleware.js:55-74 | always calls `next`; `req.user` is the payload when a non-empty token verifies and null otherwise |
| Middleware.RouteSeesTokenUser | backend/middleware/authMiddleware.js:7-74 | a route behind `optionalAuth` sees the user id `id` exactly when the header is "Bearer" in any ASCII case, one space and a non-empty token without spaces, the secret is set and the token verifies to a payload with that `userId`; without a header it sees none |
| Uri.DecodeEncode | frontend/src/lib/cookies.ts:33 | `decodeURIComponent(encodeURIComponent(s)) == s` for every string of Unicode scalar values |
| Uri.DecodeEncodeChar | frontend/src/lib/cookies.ts:33 | decoding the encoding of one character, followed by anything, yields that character and resumes after its escapes |
| Uri.DecodeSequenceUtf8 | frontend/src/lib/cookies.ts:33 | the escapes of a character's UTF-8 bytes decode to that character |
| Uri.DecodeErrors | frontend/src/lib/cookies.ts:33 | a truncated escape, a non-hex escape, an overlong sequence and a surrogate are URIErrors |
| Uri.HexRoundTrip | frontend/src/lib/cookies.ts:33 | a hex digit's value is the nibble it encodes |
| Uri.EscapeBytes | frontend/src/lib/cookies.ts:8 | each byte becomes three characters |
| Uri.EncodeAlphabet | frontend/src/lib/cookies.ts:8 | the encoding holds only unreserved characters, "%" and upper-case hex digits |
| Uri.EncodeHasNoSeparators | frontend/src/lib/cookies.ts:8 | the encoding holds no ";", "=", "," or whitespace |
| Cookies.ParseBuilt | frontend/src/lib/cookies.ts:6-19 | the browser reads the built string as the cookie `auth_token` with the encoded value and the given Max-Age, under https and not |
| Cookies.TokenPairParts | frontend/src/lib/cookies.ts:8 | the first attribute splits at its first "=" into the key and the encoded value |
| Cookies.AttributesMaxAge | frontend/src/lib/cookies.ts:9-16 | among the attributes after the pair, the Max-Age the browser takes is the one written |
| Cookies.DefaultMaxAgeIsAWeek | frontend/src/lib/cookies.ts:2 | without a Max-Age argument the cookie lives 604800 seconds |
| Cookies.ClearIsBuilt | frontend/src/lib/cookies.ts:41-43 | the two clearing strings are the built string of an empty value with Max-Age 0, without and with Secure |
| Cookies.Page.SetTokenCookie | frontend/src/lib/cookies.ts:21-24 | outside a browser nothing changes; otherwise the jar is the browser's store of the built string |
| Cookies.Page.ClearTokenCookie | frontend/src/lib/cookies.ts:39-45 | outside a browser nothing changes; otherwise one clearing write, and a second with Secure under https |
| Cookies.Page.GetTokenCookie | frontend/src/lib/cookies.ts:26-37 | null outside a browser; otherwise the decoded value of the first entry whose trimmed name is `auth_token`, null when none is, a URIError when its value does not decode |
| Cookies.FindTokenFirst | frontend/src/lib/cookies.ts:29-36 | the first entry named `auth_token` decides the result, whatever follows it |
| Cookies.FindTokenNone | frontend/src/lib/cookies.ts:29-36 | without an entry named `auth_token` the result is null |
| Cookies.EntryParts | frontend/src/lib/cookies.ts:31 | an entry `n=v` behind leading whitespace has the name `n` without leading whitespace and the value `v` without trailing whitespace |
| Cookies.ValueKeepsEquals | frontend/src/lib/cookies.ts:31-33 | "=" characters inside the value are kept: the value read is everything after the first "=" |
| Cookies.EntriesOfJar | frontend/src/lib/cookies.ts:29-31 | splitting `document.cookie` gives one entry per stored cookie, carrying its name and value |
| Cookies.EmptyJarHasNoToken | frontend/src/lib/cookies.ts:29-36 | an empty `document.cookie` reads as null |
| Cookies.SetStoresToken | frontend/src/lib/cookies.ts:21-23 | setting the token with a positive Max-Age stores its encoding under `auth_token`; a non-positive one removes it |
| Cookies.SetThenGet | frontend/src/lib/cookies.ts:21-37 | after `setTokenCookie(t, m)` with m > 0, `getTokenCookie()` returns t, whatever other cookies the jar holds |
| Cookies.RemovedTokenReadsNull | frontend/src/lib/cookies.ts:26-37 | once no cookie is named `auth_token`, reading gives null |
| Cookies.ClearThenGet | frontend/src/lib/cookies.ts:39-45 | after `clearTokenCookie()` no cookie named `auth_token` remains and `getTokenCookie()` returns null |
| Strings.Split | backend/middleware/authMiddleware.js:14 | `split` gives at least one part, none holding the separator, and joining them with it gives back the string |
| Strings.SplitJoin | frontend/src/lib/cookies.ts:29-33 | `split` undoes `join` when no piece holds the separator |
| Strings.TrimShape | backend/routes/auth.js:17 | `trim` removes exactly the leading and trailing whitespace |
| Strings.TrimEmptyIff | backend/routes/auth.js:17 | a string trims to empty exactly when all its characters are whitespace |
| Strings.TrimIdempotent | backend/models/User.js:6 | trimming twice is trimming once |
| Strings.LowerAscii | backend/routes/account.js:68 | lower-casing keeps the length and maps every character through the ASCII case map |

## Left out

- IEEE-754 doubles: numbers are exact reals, and `toFixed` rounds the exact value half up. Binary rounding artefacts of `parseFloat`, `toFixed` and `+` are not modelled. Overflow is modelled where a number is read: `Number` of a string (`ParseNumber`) and of a JSON number (`ToNumber`) is Infinity from 2^1024 - 2^970 on, the least magnitude that rounds to Infinity.
- Account.StoredNumber: a stored balance too large for a double, which `parseFloat` reads as Infinity, is kept exact. Such a balance needs a sum of 10^21 or more, where `toFixed` has already left plain notation.
- Overflow of arithmetic is not modelled: `current + delta` at account.js:135 can exceed the largest double for two finite inputs, and JavaScript then gives Infinity, which `toFixed(3)` spells "Infinity".
- `Number` and `parseFloat` on strings are modelled on decimal literals with an optional sign, point and exponent, after trimming. Hexadecimal, octal and binary literals and `parseFloat`'s acceptance of trailing garbage are not. The stored strings the core parses are always plain decimals, where the two functions agree.
- Money.ToFixed: models `toFixed` only for \|x\| below 10^21. At or above 10^21, `toFixed` returns the number's shortest exponent form, such as "1e+21", and `Decimal128.fromString` keeps it in exponent notation. That form depends on the binary value of the double, which exact reals do not carry.
- Money.NumberToDecimal128: for \|x\| at or above 10^21 the stored value has no two-digit scale, because `toFixed(2)` takes its exponent branch there.
- Money.FromStringToFixed: states the result of `toFixed` for \|x\| below 10^21 only, for the same reason.
- Account.AdjustedBalanceIsRounded: its three fractional digits hold only for a sum below 10^21 in magnitude. With an amount of 1e21, `toFixed(3)` answers "1e+21", and the stored balance and the `newBalance` in the response are "1E+21".
- Decimal128 is modelled as sign, coefficient and digit count in plain notation. Its 34-digit precision, its exponent range and exponent notation in `toString` are not.
- Request values that are arrays are not modelled. A non-string `Authorization` header is not modelled either.
- MongoDB mechanics: `withTransaction` retries, write conflicts, isolation between concurrent requests, and session handling. Requests run one at a time, and a transfer is all or nothing.
- Database errors are modelled inside the transfer transaction, through `Fault`, and in the activation handler, through `ActivationFault`. In signup, login, `GET /balance` and `POST /update-balance` they are not modelled: there they go to `next(err)`, and the central error handler's answer is `ServerError`. Its `details` field is omitted.
- `ObjectId` cast errors for malformed ids: ids are natural numbers.
- The `timestamps` `updatedAt` field is omitted. `createdAt` of a record is the `now` parameter.
- bcrypt, jsonwebtoken, nodemailer, `Math.random` (`genPin`) and `Date.now` are parameters or oracles. The activation mail is not modelled, because its failure is caught and does not change the answer.
- `signActivationToken` is modelled only by whether the secret is set. The token it signs is not modelled.
- A throwing `bcrypt.compare` or `jwt.sign` is not modelled: these are oracles that return a value.
- Strings.LowerAscii: stands for JavaScript's `toLowerCase()` and for Mongoose's `lowercase` setter, but maps only the letters A-Z. `toLowerCase()` maps every cased Unicode letter, and some mappings change the length: "İ" becomes two characters. So two e-mails that differ only in the case of a non-ASCII letter, such as "É@x.io" and "é@x.io", are distinct users in the model and the same user in the source.
- Store.NormalizeEmail: inherits this ASCII-only lower-casing, and with it every e-mail lookup of signup, activation, login and transfer.
- Auth.SignupRefusesTakenEmail: refuses an e-mail already held up to ASCII case only; the source also refuses one that differs in the case of a non-ASCII letter.
- Money.NumberToDecimal128: takes a number, so `Number(n)` at its start is modelled only for number arguments. Nothing in the core passes it anything else.
- Lone surrogates cannot occur in a Dafny `string`. So the `URIError` that `encodeURIComponent` throws for them is not modelled.
- Cookie attributes other than Max-Age are not modelled. `path`, `SameSite` and `Secure` are written but ignored by the modelled browser. The browser's handling of Domain, Expires, cookie limits and `HttpOnly` is not modelled.
- A non-integer `maxAge` argument is not modelled: `maxAge` is an `int`.
- Cookies.ParseBuilt: for a `maxAge` of magnitude 10^21 or more, `` `max-age=${maxAge}` `` at cookies.ts:10 prints exponent notation such as "1e+21", which the browser does not read as a Max-Age. The model writes every digit.
- Cookies.SetThenGet: assumes a jar that the modelled browser could hold, with names non-empty and free of ";" and "=" and values free of ";". It also assumes no other cookie's name becomes `auth_token` when trimmed. For example, a name with a leading no-break space survives the browser's stripping but not JavaScript's `trim`, and such a cookie stored first would be read instead.
- Cookies.RemovedTokenReadsNull: makes the same two assumptions about the jar.
- Cookies.ClearThenGet: makes the same two assumptions about the jar.
- The front end is not modelled: pages, forms, navigation, `api.ts`, the storage and notification wrappers. `backend/config/db.js` (connection retries) and `backend/app.js` (wiring) are not modelled either; only the error handler's answer is.
