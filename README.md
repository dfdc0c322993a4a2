# Account lifecycle of the MERN auth backend, in Dafny

This project models the account lifecycle of the backend of a MERN
authentication system. Its business rules sit in the Express auth router
(`backend/routes/auth.js`) and the Mongoose `User` model
(`backend/models/User.js`). The model covers five routes:

- **register**: refuses an email that is already on file, then saves a new,
  unverified user. The user gets a bcrypt digest of the password and a
  random verification token, and a verification link is mailed out.
- **verify/:token**: finds the user holding the token, marks the user
  verified and clears the token.
- **login**: runs its checks in a fixed order (unknown email, not yet
  verified, wrong password), then signs a one-hour JWT payload
  `{ user: { id, username } }`.
- **forgot-password**: stores a random reset token that expires one hour
  (3 600 000 ms) after the request, and mails a reset link.
- **reset-password/:token**: accepts the token only while its expiry is
  strictly later than the current time. It then stores the digest of the
  new password and clears the token and its expiry.

Files and modules:

- `wrappers.dfy` holds `Option` and `Result`.
- `bytes.dfy` holds the octet type `byte`.
- `hex.dfy` is `Buffer.toString('hex')` paired with a strict decoder.
- `utf8.dfy` is the UTF-8 encoding of a string, proved injective.
- `credentials.dfy` is bcrypt `genSalt`/`hash`/`compare`, modelled as an
  ideal one-way function of the 72 bytes bcryptjs's key schedule consumes.
  Those bytes are read cyclically from the password's key bytes: its UTF-8
  bytes followed by a NUL byte, of which at most the first 72 count. A
  digest is a symbolic term that records its salt and its preimage, and
  only `Compare` looks at the preimage, through those 72 bytes. Two
  passwords whose first 72 UTF-8 bytes agree therefore match each other's
  digests, and so do some short passwords containing U+0000, such as
  "abcdef" and "abcdef", U+0000, "abcdef", whose cyclic readings agree.
- `session.dfy` is the claims that `jwt.sign` produces: `iat` is the
  current time in seconds and `exp = iat + 3600`. An unset or empty secret
  is refused, as jsonwebtoken refuses it.
- `user_model.dfy` is the `User` schema. It holds the `Account` record,
  Mongoose-style `save` (the schema's `required` validators, then the unique
  indexes on `_id`, `username` and `email`, then an insert or an update by
  id) and `findOne` as "the first matching record in collection order".
  The class `UserDoc` is a mutable document with `getVerificationToken` and
  `getResetPasswordToken`. The class `UserStore` is the collection.
- `lifecycle.dfy` gives each route as a pure transition over the collection:
  the response, the collection afterwards and the mail requested. It also
  holds the lemmas about those transitions.
- `auth_routes.dfy` holds the handlers, written imperatively in the routes'
  order of operations. Each handler looks up a fresh document, assigns its
  fields and saves it. Each is proved to compute its `Lifecycle`
  transition exactly.

Inputs that the program takes from its environment are parameters:

- the random bytes behind salts and tokens;
- `Date.now()` (as `now`, in milliseconds);
- `BASE_URL`, `EMAIL_USER` and `JWT_SECRET` (as `Config`, each an `Option`
  because the variable may be unset: an unset `BASE_URL` is rendered into
  the mailed links as the text `undefined`, as a template literal does, and
  an unset `EMAIL_USER` leaves the mail's sender unset);
- whether `sendMail` resolved (as `mailDelivered`).

Behaviour the code has, kept as written even where one might expect
otherwise:

- When the mail fails after the save, register and forgot-password answer
  "Server error", but the written record stays.
- A fresh email with a taken username passes the route's own check. The
  unique index then rejects the save, and the answer is "Server error", not
  "User already exists".
- Verification tokens never expire. Reset tokens expire at a strict
  cutoff.
- forgot-password reports an unknown email as 404 "User not found", while
  login answers "Invalid Credentials" both for an unknown email and for a
  wrong password.
- The password-length check counts characters as `validator`'s `isLength`
  does: it skips the variation selectors U+FE0E and U+FE0F, so five letters
  followed by U+FE0F are too short.
- Token lookups take the first record that matches. The lemmas that replay
  a token therefore assume that no other record holds the same token
  (`VerificationTokenUnique`, `ResetTokenUnique`). Only the 160 random bits
  of each token back that assumption.

## Model

| member | source | states |
|---|---|---|
| `Hex.Encode` | backend/models/User.js:15 | the hex rendering has two characters per byte, each in `[0-9a-f]` |
| `Hex.DecodeEncode` | backend/models/User.js:15 | hex-decoding the rendering of any bytes gives those bytes back |
| `Hex.EncodeDecode` | backend/models/User.js:21 | any string the decoder accepts is the rendering of what it decodes to, so the decoder accepts exactly the renderings |
| `Hex.EncodeInjective` | backend/models/User.js:21 | different random bytes give different tokens |
| `UserModel.RandomToken` | backend/models/User.js:15 | a token of 20 random bytes is exactly 40 lower-case hex characters and decodes back to those bytes |
| `Credentials.Hash` | backend/routes/auth.js:39-40 | the stored value is a digest carrying its salt, never the plaintext |
| `Credentials.HashThenCompare` | backend/routes/auth.js:101 | a password matches its own digest |
| `Utf8.Encode` | backend/routes/auth.js:101 | the UTF-8 bytes of a string: one to four bytes per character |
| `Utf8.CharBytesDecode` | backend/routes/auth.js:101 | the bytes of one character announce their own length in the lead byte and decode back to the character |
| `Utf8.EncodeAppend` | backend/routes/auth.js:101 | the encoding of a concatenation is the concatenation of the encodings |
| `Utf8.EncodeInjective` | backend/routes/auth.js:101 | different strings have different UTF-8 encodings |
| `Utf8.CharBytesNul` | backend/routes/auth.js:101 | a character's encoding holds a zero byte exactly when the character is U+0000 |
| `Utf8.EncodeNul` | backend/routes/auth.js:101 | a string's encoding holds a zero byte exactly when the string holds U+0000 |
| `Credentials.GenSalt` | backend/routes/auth.js:39 | definition: a salt of 10 rounds over the given random bytes; its properties are `Credentials.Hash` and `Credentials.HashThenCompare` |
| `Credentials.KeyBytes` | backend/routes/auth.js:101 | the key bytes of a password are 1 to 72 bytes: its UTF-8 bytes followed by a NUL when they are fewer than 72, otherwise its first 72 UTF-8 bytes |
| `Credentials.Cycle` | backend/routes/auth.js:101 | the key schedule consumes exactly 72 bytes, the `i`-th being key byte `i` modulo the number of key bytes |
| `Credentials.Key` | backend/routes/auth.js:101 | the bytes bcrypt reads from a password are exactly 72 |
| `Credentials.Compare` | backend/routes/auth.js:101 | definition: a stored digest matches a password when the 72 bytes read from each agree, and a value that is not a digest matches nothing; its properties are `Credentials.HashThenCompare`, `Credentials.WrongPasswordRejected`, `Credentials.LongPasswordsCollide`, `Credentials.NulPasswordsCollide` and `Credentials.PlainNeverMatches` |
| `Credentials.CyclesOfTerminatedKeys` | backend/routes/auth.js:101 | two key byte strings whose only zero byte is their last give the same cyclic reading only if they are equal |
| `Credentials.WrongPasswordRejected` | backend/routes/auth.js:101-104 | a different password does not match the digest, when both passwords are under 72 UTF-8 bytes and neither holds U+0000 |
| `Credentials.NulPasswordsCollide` | backend/routes/auth.js:101 | a password of six UTF-8 bytes, repeated after a U+0000, matches the digest of the password itself |
| `Credentials.CycleDoubled` | backend/routes/auth.js:101 | seven key bytes given twice over are read as the same 72 bytes as once |
| `Credentials.AbcdefCollides` | backend/routes/auth.js:101 | "abcdef", U+0000, "abcdef" matches the digest of "abcdef" |
| `Credentials.LongPasswordsCollide` | backend/routes/auth.js:101 | once a password's first 72 UTF-8 bytes are fixed, any continuation matches the digest of any other continuation |
| `Credentials.PlainNeverMatches` | backend/routes/auth.js:101 | a stored value that is not a digest matches no password |
| `Session.Sign` | backend/routes/auth.js:106-116 | signing fails exactly for an unset or empty secret; otherwise the token carries the given id and username, `iat` is `now` in whole seconds and it expires 3600 s later |
| `UserModel.FindFirst` | backend/routes/auth.js:185-188 | `findOne` returns the first record that matches the filter, and nothing exactly when no record matches; a reset token matches only while its expiry is strictly greater than `now` |
| `UserModel.Matches` | backend/routes/auth.js:185-188 | definition of the `findOne` filters; a reset filter requires an expiry strictly greater than `now`; its properties are `UserModel.FindFirst` and `Lifecycle.ResetWindowIsStrict` |
| `UserModel.SecretPresent` | backend/models/User.js:7 | definition: the `required` validator on `password` (a non-empty plaintext, or any digest); its properties are `UserModel.SavePreservesWellformed` and `UserModel.Save` |
| `UserModel.PassesSchema` | backend/models/User.js:5-7 | definition: the `required` validators on `username`, `email` and `password`; its properties are `UserModel.Save` and `UserModel.SavePreservesWellformed` |
| `UserModel.Clash` | backend/models/User.js:5-6 | definition: two records collide on the unique indexes of `_id`, `username` or `email`; its properties are `UserModel.Save`, `UserModel.InsertClashFails` and `UserModel.SavePreservesWellformed` |
| `UserModel.Wellformed` | backend/models/User.js:4-8 | definition: every record passes the validators and no two records clash; its properties are `UserModel.SavePreservesWellformed` and `UserModel.InsertClashFails` |
| `UserModel.Save` | backend/models/User.js:4-8 | an insert succeeds exactly when the document passes the validators and clashes with no stored record, and then appends the document to the unchanged records; an update replaces the record with the document's id; every successful save validated the document and holds it afterwards; a duplicate-key error names a record that clashes |
| `UserModel.FindUnique` | backend/models/User.js:5-6 | in a well-formed collection, looking a record up by its id or its email finds that record |
| `UserModel.SavePreservesWellformed` | backend/models/User.js:4-8 | a save that succeeds keeps every record valid under the schema and keeps ids, usernames and emails unique |
| `UserModel.InsertClashFails` | backend/models/User.js:5-6 | an insert that would duplicate an id, username or email fails |
| `UserModel.UpdateInPlace` | backend/routes/auth.js:68-70 | re-saving a document with its id, username and email unchanged replaces exactly that record |
| `UserModel.UserDoc.constructor` | backend/models/User.js:4-12 | `new User({username, email, password})` is unverified, holds no token and holds the password as given |
| `UserModel.UserDoc.Hydrate` | backend/routes/auth.js:63 | the document `findOne` returns is a copy of the stored record, marked as not new |
| `UserModel.UserDoc.GetVerificationToken` | backend/models/User.js:14-18 | sets `verificationToken` to the returned hex token and changes no other field |
| `UserModel.UserDoc.GetResetPasswordToken` | backend/models/User.js:20-25 | sets `resetPasswordToken` to the returned token and `resetPasswordExpire` to `now + 3600000`, replacing any earlier pair, and changes no other field |
| `UserModel.UserStore.NewId` | backend/routes/auth.js:38 | a new document gets an id that no stored record uses |
| `UserModel.UserStore.FindOne` | backend/routes/auth.js:92 | returns a fresh document for the first matching record, or null if none matches |
| `UserModel.UserStore.SaveDoc` | backend/routes/auth.js:43 | the collection becomes what `Save` gives, or stays unchanged and the error is returned; the collection stays well-formed |
| `Lifecycle.Status` | backend/routes/auth.js:28-203 | every response is sent with a status from 200 to 500, and with a 2xx status exactly when the request succeeded |
| `Lifecycle.Message` | backend/routes/auth.js:35-200 | definition: the `msg` each response carries, or, for a validation failure and a login, the key of the response body (`errors`, `token`); its properties are in `Lifecycle.RegisterRejectsDuplicateEmail`, `Lifecycle.LoginUnknownEmail` and `Lifecycle.ForgotPasswordUnknownEmail` |
| `Lifecycle.ValidatorLength` | backend/routes/auth.js:23 | the length `isLength` measures is at most the number of characters, and equals it for a string without U+FE0E or U+FE0F |
| `Lifecycle.ValidatorLengthCount` | backend/routes/auth.js:23 | the length `isLength` measures is the number of characters less the number of U+FE0E and U+FE0F among them |
| `Lifecycle.LongEnough` | backend/routes/auth.js:23 | definition: `isLength({ min: 6 })`, a measured length of at least 6; its properties are `Lifecycle.RegisterRejectsInvalidInput`, `Lifecycle.ResetPasswordRejectsInvalidInput` and `Lifecycle.VariationSelectorNotCounted` |
| `Lifecycle.Interpolate` | backend/routes/auth.js:45 | definition: an unset environment variable is rendered as `undefined` in a template literal; its property is `Lifecycle.UnsetBaseUrlLinks` |
| `Lifecycle.VerificationMail` | backend/routes/auth.js:45-52 | definition: the `sendMail` request of register (from `EMAIL_USER`, to the email, the verification subject, the link `BASE_URL/verify/<token>`); its properties are `Lifecycle.UnsetBaseUrlLinks` and `Lifecycle.RegisterCreatesPendingAccount` |
| `Lifecycle.ResetMail` | backend/routes/auth.js:156-163 | definition: the `sendMail` request of forgot-password (from `EMAIL_USER`, to the email, the reset subject, the link `BASE_URL/reset-password/<token>`); its properties are `Lifecycle.UnsetBaseUrlLinks` and `Lifecycle.ForgotPasswordIssuesToken` |
| `Lifecycle.PendingAccount` | backend/routes/auth.js:38-42 | definition: the record register saves (the username and email given, the digest of the password, unverified, the new verification token, no reset pair); its property is `Lifecycle.RegisterCreatesPendingAccount` |
| `Lifecycle.UnsetBaseUrlLinks` | backend/routes/auth.js:45-48 | with `BASE_URL` unset, the verification and reset links begin with `undefined` and end with the token; both mails are sent from `EMAIL_USER`, set or not |
| `Lifecycle.Register` | backend/routes/auth.js:25-58 | with no mail requested nothing is written; a mail to the given email is requested exactly when one record was added; success always requests a mail. Its other properties are the `Lifecycle.Register…` lemmas |
| `Lifecycle.VerifyEmail` | backend/routes/auth.js:61-76 | never changes the number of records and sends no mail; anything but success leaves the collection unchanged |
| `Lifecycle.Login` | backend/routes/auth.js:84-120 | a token is issued only for a stored, verified account with that email whose digest matches the password, and it carries that account's id and username |
| `Lifecycle.ForgotPassword` | backend/routes/auth.js:140-169 | never changes the number of records; with no mail requested nothing is written; any mail goes to the given email |
| `Lifecycle.ResetPassword` | backend/routes/auth.js:177-204 | never changes the number of records and sends no mail; anything but success leaves the collection unchanged |
| `Lifecycle.RegisterKeepsInvariant` | backend/routes/auth.js:38-43 | register keeps the collection well-formed; every password stays a digest; a verification token is held exactly while the account is unverified; reset token and expiry stay paired |
| `Lifecycle.VerifyEmailKeepsInvariant` | backend/routes/auth.js:68-70 | verify-email keeps that same invariant |
| `Lifecycle.ForgotPasswordKeepsInvariant` | backend/routes/auth.js:153-154 | forgot-password keeps that same invariant |
| `Lifecycle.ResetPasswordKeepsInvariant` | backend/routes/auth.js:194-198 | reset-password keeps that same invariant |
| `Lifecycle.RegisterRejectsInvalidInput` | backend/routes/auth.js:21-29 | an empty username or a password shorter than 6 characters is refused and nothing changes |
| `Lifecycle.VariationSelectorNotCounted` | backend/routes/auth.js:23 | a six-character password made of five letters and U+FE0F measures 5 and is refused at register |
| `Lifecycle.RegisterRejectsDuplicateEmail` | backend/routes/auth.js:33-36 | an email already on file gives 400 "User already exists", changes nothing and sends no mail |
| `Lifecycle.RegisterDuplicateUsernameFails` | backend/routes/auth.js:43-56 | a fresh email with a taken username fails at save and gives "Server error"; nothing is added and no mail is sent |
| `Lifecycle.RegisterCreatesPendingAccount` | backend/routes/auth.js:38-54 | success appends exactly one record. It has the given username and email, the digest of the password (not the password), `isVerified = false`, the issued verification token and no reset pair. The link mailed carries the same token. If the mail fails the answer is "Server error", but the record stays |
| `Lifecycle.RegisterAddsAtMostOne` | backend/routes/auth.js:31-56 | register either leaves the collection as it was or appends the one pending record |
| `Lifecycle.VerifyEmailActivates` | backend/routes/auth.js:63-70 | a matching token makes that account verified and clears its token; all its other fields and all other records are unchanged |
| `Lifecycle.VerifyEmailUnknownToken` | backend/routes/auth.js:63-66 | a token no record holds gives "Invalid or expired verification token" and changes nothing |
| `Lifecycle.VerifyEmailSingleUse` | backend/routes/auth.js:69 | after a successful verification, the same token is refused and changes nothing |
| `Lifecycle.LoginUnknownEmail` | backend/routes/auth.js:92-95 | an unknown email gives 400 "Invalid Credentials" |
| `Lifecycle.LoginChecksInOrder` | backend/routes/auth.js:97-116 | an unverified account is refused before any password comparison. A wrong password gives "Invalid Credentials", the same answer as an unknown email. An unset or empty secret gives "Server error". Otherwise the payload `{id, username}` is signed with a one-hour expiry |
| `Lifecycle.ForgotPasswordUnknownEmail` | backend/routes/auth.js:148-151 | an unknown email gives 404 "User not found" and changes nothing |
| `Lifecycle.ForgotPasswordIssuesToken` | backend/routes/auth.js:153-165 | the account gets the new reset token, with an expiry of `now + 3600000` that overwrites any earlier pair; nothing else changes; the reset link mailed carries the token |
| `Lifecycle.ForgotPasswordLatestTokenOnly` | backend/models/User.js:22-23 | after a second request, only the newer token matches the account (within its hour); the older token never matches again |
| `Lifecycle.ResetPasswordRejectsInvalidInput` | backend/routes/auth.js:175-181 | a password shorter than 6 characters is refused with 400 before any lookup, and nothing changes |
| `Lifecycle.ResetPasswordNeedsLiveToken` | backend/routes/auth.js:185-192 | a reset succeeds if and only if some record holds the token with an expiry strictly greater than `now`; otherwise the answer is "Invalid or expired reset token" and nothing changes |
| `Lifecycle.ResetPasswordReplacesHash` | backend/routes/auth.js:194-198 | success stores the digest of the new password and clears the reset token and its expiry. `isVerified`, `verificationToken`, `username`, `email` and all other records are unchanged |
| `Lifecycle.ResetPasswordSingleUse` | backend/routes/auth.js:196-197 | after a successful reset, the same token is refused at any later time |
| `Lifecycle.ResetWindowIsStrict` | backend/routes/auth.js:187 | a token issued at time `t` works exactly while `now < t + 3600000`; from the cutoff on, it is refused like an unknown token |
| `Lifecycle.LoginWithDigestOf` | backend/routes/auth.js:97-116 | a verified account holding the digest of a password logs in with that password, and a password from which bcrypt reads other 72 bytes gives "Invalid Credentials" |
| `Lifecycle.AliceWrongPassword` | backend/routes/auth.js:101-104 | "wrong" does not match the digest of "secret1" |
| `Lifecycle.ForgotThenReset` | backend/routes/auth.js:153-198 | forgot-password, then a reset within the hour with the mailed token: the account keeps its email and its verification, holds the digest of the new password, and the collection stays well-formed |
| `Lifecycle.ResetThenLogin` | backend/routes/auth.js:194-198 | forgot-password, then a reset within the hour: the new password logs in and the old password gives "Invalid Credentials", given a usable secret and old and new passwords from which bcrypt reads different 72 bytes |
| `Lifecycle.AliceScenario` | backend/routes/auth.js:31-116 | register alice, verify with the mailed token, then log in: the wrong password gives "Invalid Credentials" and `secret1` gives a token for id 0 and username "alice" |
| `AuthRoutes.PostRegister` | backend/routes/auth.js:25-58 | the handler's response, mail request and resulting collection are those of `Lifecycle.Register`; the store stays valid, and `Lifecycle.Invariant` is kept |
| `AuthRoutes.GetVerify` | backend/routes/auth.js:61-76 | the handler's response and resulting collection are those of `Lifecycle.VerifyEmail`; the store stays valid, and `Lifecycle.Invariant` is kept |
| `AuthRoutes.PostLogin` | backend/routes/auth.js:84-120 | the handler's response is `Lifecycle.Login` of the store, and the store is only read |
| `AuthRoutes.PostForgotPassword` | backend/routes/auth.js:140-169 | the handler's response, mail request and resulting collection are those of `Lifecycle.ForgotPassword`; the store stays valid, and `Lifecycle.Invariant` is kept |
| `AuthRoutes.PutResetPassword` | backend/routes/auth.js:177-204 | the handler's response and resulting collection are those of `Lifecycle.ResetPassword`; the store stays valid, and `Lifecycle.Invariant` is kept |

## Left out

- bcrypt, `jwt.sign` and `crypto.randomBytes` are foreign libraries. The
  hash is an ideal symbolic digest. The JWT is its claims only, without
  signature bytes. The random bytes are inputs.
- Credentials.Compare: a stored value that is not a digest answers false.
  bcryptjs does so for a value whose length is not 60, but throws, and the
  route answers "Server error", for a malformed 60-character value. The
  handlers keep `Lifecycle.Invariant`, under which every stored password
  is a digest, so from an empty collection the difference is not
  reachable through the routes.
- Credentials.WrongPasswordRejected: stated only for passwords under 72
  UTF-8 bytes without U+0000. bcryptjs ignores the bytes after the 72nd
  (`Credentials.LongPasswordsCollide`), and its cyclic reading lets some
  passwords containing U+0000 collide (`Credentials.NulPasswordsCollide`).
- Lifecycle.ResetThenLogin: the old password is refused only when bcrypt
  reads different 72 bytes from it than from the new one, for the same
  reasons.
- Lifecycle.LoginWithDigestOf: the other password is refused only when
  bcrypt reads different 72 bytes from it, for the same reasons; when the
  bytes agree bcryptjs lets it in, and so does the model.
- Lifecycle.ValidatorLength: counts Dafny characters, which are Unicode
  scalar values. `isLength` counts UTF-16 code units less the surrogate
  pairs, which is the same count for well-formed strings; lone surrogates
  are not modelled.
- Errors that jsonwebtoken raises asynchronously, inside the signing stream,
  are not modelled. The `throw` in the callback would escape the handler's
  `try`. Only the synchronous "empty secret" failure is kept.
- Mail delivery (the nodemailer transporter, `sendMail` and the
  `/test-email` route) is network I/O. The model outputs the mail request
  (from, to, subject, link) and takes whether delivery succeeded as an input.
- AuthRoutes.PostRegister: the `isEmail` check on the email is not modelled,
  because email syntax is outside the model. The same holds for
  `PostLogin` and `PostForgotPassword`. The username and
  password-length checks are modelled, and they give `InvalidInput`.
- HTTP plumbing is not modelled beyond `Lifecycle.Status` and
  `Lifecycle.Message`. The same goes for the `/dashboard` route, which
  depends on `middleware/auth`. `middleware/auth` is not part of this model.
- MongoDB and Mongoose: the collection is an in-memory sequence, and
  insertion order stands for MongoDB's natural order. Document ids come from
  a counter instead of ObjectId.
- `backend/server.js` (environment loading, the database connection,
  `listen`) has no logic.
- Concurrency: each route runs as one atomic step. The race between two
  requests that find and then save the same record is not modelled.
