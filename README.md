# Account backend: password reset, login and request authentication

A Dafny model of the logic of a small account backend. The backend keeps
user accounts and one-time codes (OTPs) in two collections, both keyed by
email. It offers:

- **Password reset** (`forgetController.ts`). `sendOtp` issues a six-digit
  code and upserts it into the OTP collection. `verifyOtp` checks the code's
  expiry first, then the code itself, and on a match sets `otpVerify`.
  `resetPassword` needs a verified record. It then replaces the password
  digest and deletes the record.
- **Accounts** (`authController.ts`). `userRegistration`, `userLogin` and
  `userProfile` are chains of guards over the account collection.
- **Request authentication** (`authMiddleware.ts`). `isLogin` takes the
  bearer token from the Authorization header, classifies what token
  verification does, and copies the token's claims into the request headers.
  `isAdmin` admits only the role "admin".
- **Schemas** (`authModel.ts`, `otpModel.ts`). They give the record fields
  and their defaults.

How the model is built:

- The two collections are `map<string, …>` fields of a `Store.Database`
  object, keyed by email. One key holds one record, which is how the unique
  indexes are modelled. `Store.WellFormed` is the invariant: each record sits
  under its own email, ids are distinct, and every OTP record belongs to an
  account.
- Each controller operation is a method that changes the database in place.
  Its `ensures` ties the result and the new state to a specification function
  of the old state (`SendOtpSpec`, `VerifyOtpSpec`, `ResetPasswordSpec`,
  `RegisterSpec`, `LoginSpec`). The `ensures` of those functions state the
  per-request properties.
- `Lifecycle` chains the specification functions into one state machine. It
  proves properties of whole request sequences there: no reset without a
  verification, one reset per verification, expiry, retry after a wrong
  code, and the register → login → reset flow.
- Results are outcome datatypes (`OtpSent`, `LoggedIn(...)`,
  `Fail(status, msg)`, …) instead of HTTP responses.
- External inputs become parameters: the clock (`now` in milliseconds,
  `nowIso` for `toISOString()`), the random draw, whether the e-mail was
  delivered, and `jwt.verify`. bcrypt is modelled as `Basics.Hash`, a digest
  of the key bytes bcrypt reads: the first 72 bytes of the password's UTF-8
  encoding.

Behaviours of the code worth knowing:

- A re-sent code keeps an earlier `otpVerify = true`, because the upsert
  writes only `otp`, `expiresAt` and `createdAt`, and the schema's
  `timestamps: true` lets `createdAt` take effect only when the record is
  created. So after one successful
  verification, any number of later codes still allow a reset without being
  entered (`Lifecycle.ResentCodeKeepsVerification`). A verified record also
  allows a reset at any later time, because `resetPassword` checks no expiry.
- A registration with an email already taken is answered with status 400.
- The "mark the account verified" step writes `isVerified`, a field the
  account schema does not have, so it changes nothing.
- The controllers keep no login-session history and no count of devices;
  a login overwrites `lastLogin` and `loginDeviceName`.
- bcrypt reads only the first 72 bytes of a password. Two passwords that
  agree on those bytes are accepted for each other, and a reset to such a
  password leaves the old one working (`Basics.LongPasswordsShareDigest`,
  `Lifecycle.EndToEndReset`).
- `resetPassword` tests only the password, although its message names the
  email too. Without an email, the lookup, the update and the delete each
  act on the first document of their collection. When the first OTP record
  is verified, the first account's password is replaced, whoever owns
  either; when it is not, the answer is 400 "OTP not verified". See
  "## Findings".

## Model

| member | source | states |
|---|---|---|
| `Basics.HashMatchesOnlyItsPassword` | src/module/auth/authController.ts:78 | among passwords of at most 72 UTF-8 bytes without a NUL character, which bcrypt reads in full, a stored digest is accepted for the password it was made from and for no other |
| `Basics.LongPasswordsShareDigest` | src/module/auth/authController.ts:78 | two passwords that agree on their first 72 UTF-8 bytes are accepted for each other's digest, whatever follows |
| `Basics.Utf8Injective` | src/module/auth/authController.ts:28 | distinct passwords have distinct UTF-8 encodings, so the key bytes of a short password determine it |
| `AuthModel.RoleName` | src/module/auth/authModel.ts:22-26 | the role is stored as "admin" exactly for `Admin` and "user" exactly for `User` |
| `AuthModel.NewAccount` | src/module/auth/authModel.ts:18-26 | a new account keeps the fields given and gets `isActive = true`, role `user`, no last login and no device name |
| `AuthModel.ViewForgetsOnlyPassword` | src/module/auth/authController.ts:145 | the `select("-password")` view drops the password and nothing else |
| `OtpModel.NewOtpRecord` | src/module/forget-password/otpModel.ts:14-29 | a new record has `otpVerify = false`, `createdAt = now`, `expireTime = 10`, `expiresAt = now + 600000`, and the two expiry fields agree |
| `AuthController.RegisterSpec` | src/module/auth/authController.ts:13-45 | registration succeeds iff email, password and name are all present and the email is new; a missing field gives 400 and a taken email gives 400 "User email already exists", both leaving the store unchanged; success stores the new account under the email with the password's digest and a fresh id, and returns only id, email and name; the invariant is kept |
| `AuthController.RegisterAddsOneAccount` | src/module/auth/authController.ts:30-36 | a successful registration adds exactly one account under the new email and leaves every existing account unchanged |
| `AuthController.RegisteredAccountDefaults` | src/module/auth/authController.ts:28-36 | the registered account's digest accepts exactly the passwords that agree with the registered one on bcrypt's 72 key bytes, and so, among passwords bcrypt reads in full, that password and no other; the account is active and has role `user` |
| `AuthController.UserRegistration` | src/module/auth/authController.ts:7-54 | the result and new database are those of `RegisterSpec` on the old database; the invariant is kept |
| `AuthController.DeviceName` | src/module/auth/authController.ts:87-88 | the device name is `deviceName` if non-empty, else the user agent if non-empty, else "Unknown Device"; it is never empty |
| `AuthController.LoginSpec` | src/module/auth/authController.ts:61-104 | a missing email or password gives 400. Login succeeds iff the email is known and the password matches its digest; otherwise the answer is 401 "Invalid email or password". A failure changes nothing. A success updates only that account's `lastLogin` and `loginDeviceName`, and signs exactly its id, email and role (as the stored string "admin" or "user") with a one-day lifetime |
| `AuthController.LoginFailuresIndistinguishable` | src/module/auth/authController.ts:69-84 | an unknown email and a wrong password give the identical 401 outcome and leave the store unchanged |
| `AuthController.LoginTouchesOnlyLastLogin` | src/module/auth/authController.ts:91-93 | a successful login changes no other account. In the account logged into, it changes only `lastLogin` and `loginDeviceName`, with `lastLogin` set to the current time |
| `AuthController.UserLogin` | src/module/auth/authController.ts:57-135 | the result and new database are those of `LoginSpec` on the old database; the invariant is kept |
| `AuthController.UserProfile` | src/module/auth/authController.ts:139-165 | it fails with 404 "User not found" iff no account has the id. Otherwise it returns that account without its password. The database is not changed |
| `ForgetController.DecimalString` | src/module/forget-password/forgetController.ts:23 | `toString()` of a non-negative integer yields a non-empty string of decimal digits |
| `ForgetController.DecimalRoundTrip` | src/module/forget-password/forgetController.ts:23 | reading the rendered digits back gives the number |
| `ForgetController.DecimalLength` | src/module/forget-password/forgetController.ts:23 | a number in [10^k, 10^(k+1)) is rendered with exactly k + 1 digits |
| `ForgetController.OtpCode` | src/module/forget-password/forgetController.ts:23 | the code is a six-character all-digit string denoting 100000 + draw, a number in [100000, 999999] |
| `ForgetController.OtpCodeInjective` | src/module/forget-password/forgetController.ts:23 | distinct draws give distinct codes |
| `ForgetController.SendOtpSpec` | src/module/forget-password/forgetController.ts:13-34 | a missing email gives 400 and an unknown email gives 404; a delivery failure gives 500. Every failure leaves both stores unchanged, and the account store is never changed. On success the email has exactly one record, holding the new code and `expiresAt = now + 600000`, and no other record changes. An existing record keeps its `otpVerify` and its first `createdAt`; a new one has the schema defaults, with `createdAt = now`. The invariant is kept |
| `ForgetController.SendOtp` | src/module/forget-password/forgetController.ts:9-44 | the result and new database are those of `SendOtpSpec` on the old database; the invariant is kept |
| `ForgetController.VerifyOtpSpec` | src/module/forget-password/forgetController.ts:51-86 | a missing email or code gives 400 and a missing record gives 404, with nothing changed. If `expiresAt < now`, the record is deleted and the answer is 400 "OTP has expired", whatever the code. A wrong code gives 400 "Invalid OTP" with nothing changed. Success happens iff the record exists, `now <= expiresAt` and the code matches; it sets only that record's `otpVerify` to true. Accounts never change |
| `ForgetController.VerifyOtp` | src/module/forget-password/forgetController.ts:47-91 | the result and new database are those of `VerifyOtpSpec` on the old database; the invariant is kept |
| `ForgetController.ResetPasswordSpec` | src/module/forget-password/forgetController.ts:99-118 | the corrected guard (see "## Findings"): a missing email or password gives 400 "Email and new password are required". An absent or unverified record gives 400 "OTP not verified", and nothing changes. Success happens iff both are present and the email's record is verified. It then deletes the record and sets that account's password to the new password's digest. No other account changes |
| `ForgetController.ResetChangesOnlyVerifiedAccount` | src/module/forget-password/forgetController.ts:103-113 | a reset changes an account only when it names that account's email and the email's record is verified, and then only its password |
| `ForgetController.Selected` | src/module/forget-password/forgetController.ts:103 | the filter `{ email }` selects the record under a given email, or none; with no email it selects the first document, which exists iff the collection is non-empty |
| `ForgetController.ResetPasswordAsWritten` | src/module/forget-password/forgetController.ts:99-118 | the code as written: only the password is tested, and the lookup, the update and the delete all use `{ email }`; for a present email it agrees with `ResetPasswordSpec` |
| `ForgetController.AbsentEmailResetsAnotherAccount` | src/module/forget-password/forgetController.ts:99-116 | as written, a body without an email replaces the password of the first account while the verified record is another user's, and the victim's email has no record; the corrected guard refuses the same body with 400 |
| `ForgetController.AbsentEmailResetExample` | src/module/forget-password/forgetController.ts:99-116 | with Alice's and Bob's accounts and only Bob's record verified, the body `{ password: "new" }` resets Alice's password in a well-formed store |
| `ForgetController.ResetIsOneTime` | src/module/forget-password/forgetController.ts:113-116 | right after a successful reset, a second reset for the same email fails |
| `ForgetController.ResetPassword` | src/module/forget-password/forgetController.ts:94-123 | with the corrected guard, the result and new database are those of `ResetPasswordSpec` on the old database; the invariant is kept |
| `AuthMiddleware.Split` | src/middleware/authMiddleware.ts:25 | `split(" ")` yields at least one piece, and no piece contains the separator |
| `AuthMiddleware.SplitJoin` | src/middleware/authMiddleware.ts:25 | joining the pieces with the separator gives the header back |
| `AuthMiddleware.SplitWithoutSeparator` | src/middleware/authMiddleware.ts:25 | a string without the separator splits into itself alone |
| `AuthMiddleware.SplitAtFirstSeparator` | src/middleware/authMiddleware.ts:25 | the first piece ends at the first separator |
| `AuthMiddleware.BearerToken` | src/middleware/authMiddleware.ts:25-28 | an extracted token is non-empty and contains no space; an absent header gives no token |
| `AuthMiddleware.BearerTokenOfHeader` | src/middleware/authMiddleware.ts:25-28 | "scheme token…" yields the token, which is piece [1], whatever follows it after a space |
| `AuthMiddleware.NoTokenWithoutSecondPiece` | src/middleware/authMiddleware.ts:25-28 | a header with no space, or with an empty piece [1], yields no token |
| `AuthMiddleware.ClassifyError` | src/middleware/authMiddleware.ts:45-57 | a verification error gives 401 iff it is a JWT error. Expiry is reported as "Token expired", the other JWT errors as "Invalid token", and any other error as 500 |
| `AuthMiddleware.Authenticate` | src/middleware/authMiddleware.ts:25-44 | no token gives 401 "Unauthorized access" and a string payload gives 401 "Invalid token payload". A thrown error is classified. The request passes iff a token was found and it decoded to an object payload, whose claims are then passed on |
| `AuthMiddleware.SetHeader` | src/middleware/authMiddleware.ts:41-43 | after the assignment the header reads the value assigned (absent for `undefined`); every other header is unchanged |
| `AuthMiddleware.WithClaims` | src/middleware/authMiddleware.ts:41-43 | the id, email and role headers read the decoded claims; every other header is unchanged |
| `AuthMiddleware.IsLogin` | src/middleware/authMiddleware.ts:23-59 | `next` is called iff the token authenticates, and the claims are then written into the headers. Otherwise the request is answered with the classified status and message, and its headers are unchanged |
| `AuthMiddleware.IsAdmin` | src/middleware/authMiddleware.ts:62-68 | `next` is called iff the role header is "admin"; otherwise the answer is 403 "Access denied" |
| `AuthMiddleware.AdminRouteAdmitsOnlyAdminClaims` | src/middleware/authMiddleware.ts:41-66 | behind `isLogin`, `isAdmin` admits a request iff its verified token's role claim is "admin", whatever role header the client sent |
| `Lifecycle.RunPreservesWellFormed` | src/module/auth/authModel.ts:6-10 | every request sequence keeps one record per email in each store, distinct ids, and OTP records only for existing accounts |
| `Lifecycle.OnlyVerificationSetsFlag` | src/module/forget-password/forgetController.ts:30-74 | a record's verified flag is raised only by a successful verification for that email; a re-sent code never raises it |
| `Lifecycle.VerificationHasCause` | src/module/forget-password/forgetController.ts:72-74 | if an email is unverified after j requests and verified later, a successful verification for it lies in between |
| `Lifecycle.NoResetWithoutVerification` | src/module/forget-password/forgetController.ts:103-107 | when the starting state has no verified record for the email, a reset succeeds only after a successful verification for the same email |
| `Lifecycle.ResetConsumesVerification` | src/module/forget-password/forgetController.ts:116 | between two successful resets for an email there is a successful verification for it |
| `Lifecycle.SentCodeVerifiesUntilExpiry` | src/module/forget-password/forgetController.ts:62-74 | the code just sent verifies at any time up to and including `now + 600000` |
| `Lifecycle.SentCodeExpires` | src/module/forget-password/forgetController.ts:62-65 | after expiry the right code is refused as expired and the record is deleted, so a retry finds no record |
| `Lifecycle.WrongCodeAllowsRetry` | src/module/forget-password/forgetController.ts:68-70 | a wrong code leaves the state unchanged, so the right code still verifies before expiry |
| `Lifecycle.ResentCodeKeepsVerification` | src/module/forget-password/forgetController.ts:30-34 | after a successful verification and a re-sent code, a reset succeeds without the new code being entered |
| `Lifecycle.OnlyResetChangesPassword` | src/module/forget-password/forgetController.ts:103-113 | with the corrected reset guard (see "## Findings"), no request removes an account, and only a reset naming the email whose record is verified changes its password |
| `Lifecycle.PasswordChangeNeedsVerification` | src/module/forget-password/forgetController.ts:103-113 | with the corrected reset guard (see "## Findings"), from a state with no verified record for an email, the password of its account changes only after a successful verification for that email |
| `Lifecycle.EndToEndReset` | src/module/forget-password/forgetController.ts:94-123 | after register, login, send code, verify code and reset, the code record is gone and the new password logs in. The old one logs in iff it agrees with the new one on bcrypt's 72 key bytes, so a different old password that bcrypt reads in full is refused with 401 |
| `Lifecycle.LoginTokenAdmitsOnlyAdmins` | src/module/auth/authController.ts:97-104 | a token issued at login and decoded to its signed claims passes `isLogin`, and the request then passes `isAdmin` iff the account's role is admin |

## Left out

- HTTP plumbing is not modelled: responses become outcome values, and cookies, console logging, routers, bootstrapping and environment loading are dropped.
- bcrypt's salt and cost factor are not modelled. `Basics.Hash` is a deterministic digest of the first 72 bytes of the password's UTF-8 encoding.
- Basics.Key: how the two libraries treat a NUL character is not modelled. The native `bcrypt` stops at the first NUL byte. `bcryptjs` appends a NUL to the key and repeats the key bytes to fill 72, so "a" and "a\0a" share a digest there, while the model tells them apart. For that reason `Basics.HashMatchesOnlyItsPassword` is stated only for passwords without a NUL, and the `Key(...)` equivalences of `AuthController.RegisteredAccountDefaults` and `Lifecycle.EndToEndReset` describe the libraries only for NUL-free passwords. JavaScript strings holding a lone surrogate have no counterpart in Dafny's `string` and are not modelled.
- `jwt.sign` is modelled as a `Token` value holding the payload and lifetime; no signature is modelled. `jwt.verify` is an oracle parameter `verify`.
- `Math.random` (floating point) becomes the parameter `draw` in [0, 900000).
- `SendEmailUtility` is external. Only its success or failure is modelled, as the parameter `delivered`; the message is not.
- The clock becomes the parameters `now` (milliseconds) and `nowIso` (the ISO string).
- Failures of Mongoose itself are not modelled: a failed save, a race on a unique index, the resulting 500 answers, the accounts' `createdAt`/`updatedAt` timestamps and the OTP records' `updatedAt`.
- ForgetController.SendOtp: a refreshed record keeps its first `createdAt`. That reads the schema's `timestamps: true` as setting `createdAt` on insert only, so the update document's `createdAt: new Date()` takes effect only when the record is created. Mongoose's own handling of that field was not run; `createdAt` is read by no operation modelled here.
- Request-body fields are strings or absent. Non-string JSON values are not modelled: a numeric `otp` would never equal the stored string, and an object email could act as a query operator.
- ForgetController.ResetPasswordSpec: models the guard that the 400 message announces, which requires the email as well as the password. The `ResetPassword` method and `Lifecycle` use it. The code as written is `ForgetController.ResetPasswordAsWritten` (see "## Findings"). There, a missing email makes Mongoose drop the condition, so the filter `{}` selects the first document in natural order; which document comes first is a parameter, not modelled.
- Ids are natural numbers from a counter, standing for fresh ObjectIds. Their hex string form and the 500 for a malformed id are not modelled, so `AuthController.UserProfile` takes an `Id`.
- `src/module/auth/loginModel.ts` is not modelled: no code shown reads or writes it. `userLogout` and `userProfileUpdate` are not modelled either: authApi.ts imports them but the controller does not define them.
- `AuthMiddleware.IsLogin`: an exception thrown by `next()` itself, which the same catch block would answer, is not modelled. The `error` text in the 500 body is dropped.
- Header values are single strings; Node's array-valued headers are not modelled.
- Assigning `undefined` to a request header is modelled as removing it, which reads the same.

## Findings

| source | as written | input that shows it | evidently intended | confidence | as-written member | corrected member |
|---|---|---|---|---|---|---|
| src/module/forget-password/forgetController.ts:99-116 | only `!password` is tested; `findOne`, `findOneAndUpdate` and `deleteOne` then use `{ email }` with `email` possibly `undefined`, which Mongoose treats as the empty filter | accounts of alice@x and bob@x, only bob@x's record verified and first among the OTP records, alice@x first among the accounts, body `{ password: "new" }`: alice@x's password is replaced and bob@x's record deleted | `!email \|\| !password` answers 400 "Email and new password are required", so a password changes only after a verification for its own email | not executed; the empty-filter reading rests on Mongoose's documented treatment of `undefined` filter values | `ForgetController.AbsentEmailResetsAnotherAccount`, `ForgetController.AbsentEmailResetExample` on `ForgetController.ResetPasswordAsWritten` | `ForgetController.ResetPasswordSpec` with `ForgetController.ResetChangesOnlyVerifiedAccount` and `Lifecycle.PasswordChangeNeedsVerification` |
