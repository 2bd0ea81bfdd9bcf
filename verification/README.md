# Account service core, modelled in Dafny

This project models the core of a small FastAPI account service. The service has users, a signed session cookie, per-user accounts with balances, and a payment webhook that credits those accounts. The database is an immutable value `Store.Db`. It holds one sequence of rows per table (`users`, `user_sessions`, `accounts`, `payment`) in table order, plus one serial counter for each table whose ids the database assigns. Every repository operation and every endpoint is a pure function. It takes a store and returns its outcome together with the next store (`Store.Step`).

- **Credential codec** (`Helper`). The session token is the Base64 of the email's UTF-8, then a dot, then the uppercase hex HMAC-SHA-256 of the email under the cookie key. The model also covers the fixed-salt password digest and the webhook signature check.
  - Base64 follows section 4 of RFC 4648 on the encoding side. The decoding side is the lenient decoder of Python's `binascii`, as CPython 3.11 and later implement `a2b_base64` in non-strict mode.
  - UTF-8 is modelled with strict decoding. Hex and decimal rendering are modelled too.
  - HMAC follows section 2 of RFC 2104, built from an arbitrary hash function.
  - SHA-256 is a field of `Crypto.Env`, together with the three configured secrets. Nothing is assumed about that hash, so every result holds for any hash function.
- **Session resolver** (`Resolver.CheckSession`): the five-step chain that every cookie-protected endpoint runs.
- **Repositories**:
  - `UserRepository`: CRUD with unique ids and emails.
  - `SessionsRepository`: an upsert keyed on `user_id`.
  - `PaymentRepository`: an insert that does nothing on a duplicate `transaction_id`.
  - `AccountRepository`: the owner filter, plus three assumed operations described below.
  - The key constraints are gathered in `Store.Valid`, and every write preserves it.
- **Endpoints** (`UserView`, `AdminView`, `AccountsView`, `PaymentView`): each one returns its result or a `Store.Rejection`. An endpoint guarded by `check_session` takes the caller that the resolver produced.

Behaviour of the code that the proofs make explicit:

- **Double credit.** The first accepted webhook on a new account credits twice. The account is opened with the amount as its balance and is then increased by the amount (`PaymentView.DoubleCreditOnNewAccount`). Over the run "new account 100 with 500, replay, then 300 more", the balance reads 1000, 1000 and 1300, not 500, 500 and 800 (`Scenarios.WebhookRun`).
- **Partial application.** A webhook that names a new account but an already-used transaction id opens the account and records no payment (`PaymentView.PartialApplication`).
- **Exceptions from `cookie_decode`.** A cookie with two dots, a payload whose Base64 characters leave an incomplete group or whose bytes are not valid UTF-8, or a non-ASCII tag makes `cookie_decode` raise. The exception escapes `check_session`, so the result is a server error rather than the 401 of the other refusals (`Resolver.AuthResult.ServerError`).
- **No cascade on user delete.** Deleting a user leaves their session row behind. After a delete, the cookie no longer resolves, because the user lookup fails. But if a user with the same email is created again, the new login produces the very same token. In the model, where a SELECT without ORDER BY returns rows in insertion order, the old row comes first and names the old id, so the new user's cookie is refused (`Scenarios.StaleSessionShadowsRecreatedUser`). A database that returned the rows in another order could let it through.
- **Ambiguous signature fields.** The webhook signature concatenates its fields with no separator, so account 1 with amount 23 signs the same text as account 12 with amount 3 (`Helper.SignatureFieldsAmbiguous`).

The refusals also differ by cause: for an unknown email `auth_users` returns a 409 exception object, which goes out in a 200 reply, while for a wrong password it raises 403 (`UserView.AuthUsers`).

## Model

| member | source | states |
|---|---|---|
| Helper.SignData | backend/helper.py:15-25 | the tag is 64 uppercase hex digits, the uppercase rendering of the HMAC-SHA-256 of the email's UTF-8 under the cookie key |
| Helper.CookieCreate | backend/helper.py:28-30 | the token holds exactly one dot and splits into the Base64 of the email's UTF-8 and the tag of the email |
| Helper.CookieDecode | backend/helper.py:33-42 | the empty string or a string without a dot gives None; more than one dot raises; with one dot, a payload that fails to decode raises its error, a non-ASCII tag raises, and otherwise the email comes back exactly when the tag is its signature, None when it is not |
| Helper.PayloadEmail | backend/helper.py:37 | the Base64 error exactly when the Base64 does not decode, the UTF-8 error exactly when its bytes are not UTF-8, and otherwise the string whose UTF-8 the decoding produced |
| Helper.CookieRoundTrip | backend/helper.py:28-42 | decoding the token made for an email gives back that email |
| Helper.DecodeAccepts | backend/helper.py:35-40 | a one-dot token whose payload decodes to the email and whose tag is the email's tag is accepted for that email |
| Helper.DecodeRejectsForgedTag | backend/helper.py:37-42 | the email's payload with any other ASCII, dot-free tag gives None, not an exception |
| Helper.PayloadRoundTrip | backend/helper.py:30-37 | the payload made for an email decodes back to that email |
| Helper.HashPassword | backend/helper.py:45-49 | the digest is 64 lowercase hex digits, the rendering of the hash of the UTF-8 of the password followed by the single salt |
| Helper.SignaturePaymentCheck | backend/helper.py:81-93 | an accepted signature is 64 lowercase hex digits |
| Helper.SignatureUnique | backend/helper.py:88-93 | one field tuple admits at most one signature, and its uppercase variant is refused |
| Helper.SignatureAccepted | backend/helper.py:88-93 | the lowercase hex SHA-256 of the tuple's text is accepted for that tuple, so together with `Helper.SignatureUnique` exactly one signature is |
| Helper.SignatureFieldsAmbiguous | backend/helper.py:88-91 | (account 1, amount 23) and (account 12, amount 3) get the same verdict for every signature |
| Crypto.HmacLongKey | backend/helper.py:18-22 | a key longer than the 64-byte block authenticates exactly as its SHA-256 does, per section 2 of RFC 2104 |
| Crypto.CompareDigest | backend/helper.py:39 | defined exactly when both strings are ASCII, and then true exactly when they are equal |
| Text.Split | backend/helper.py:36 | one piece more than there are separators, no piece contains the separator, and joining the pieces gives back the string |
| Text.SplitJoinTwo | backend/helper.py:30-36 | two separator-free strings joined by the separator split back into exactly those two |
| Base64.Encode | backend/helper.py:30 | four characters per started group of three bytes, all from the alphabet or the pad |
| Base64.EncodeIsAscii | backend/helper.py:30 | an encoding is ASCII and contains no dot |
| Base64.DecodeEncode | backend/helper.py:30-37 | the lenient decoder returns the bytes that were encoded |
| Base64.DecodeLenient | backend/helper.py:37 | on fixed inputs: the default `b64decode` skips bytes outside the alphabet, stops at a completing pad sequence, and raises on an incomplete group |
| Base64.RunEncode | backend/helper.py:37 | from any accumulated prefix, decoding an encoding appends exactly the encoded bytes |
| Utf8.DecodeEncode | backend/helper.py:30-37 | strict decoding of an encoding gives back the string |
| Utf8.EncodeDecode | backend/helper.py:37 | whatever strict decoding accepts is the encoding of its result |
| Utf8.DecodeIff | backend/helper.py:37 | decoding yields a string exactly when the bytes are that string's encoding |
| Utf8.Conformance | backend/helper.py:30-37 | a two-byte character encodes as RFC 3629 says, and strict decoding refuses a truncated sequence, an overlong form and an encoded surrogate |
| Text.UpperAscii | backend/helper.py:24 | ASCII upper-casing: keeps the length and changes exactly the ASCII lowercase letters, each to its capital; this is exactly what `.upper()` does to the hex digest it is applied to, though not to text in general |
| Text.LowerAscii | backend/helper.py:48 | ASCII lower-casing: keeps the length and changes exactly the ASCII capitals, each to its lowercase letter; exactly what `.lower()` does to the hex digest it is applied to |
| Utf8.EncodeAscii | backend/helper.py:30 | an ASCII string encodes to its code points, one byte each |
| Hex.Render | backend/helper.py:23 | two digits per byte, each in the requested case, the high nibble first |
| Hex.UpperOfLower | backend/helper.py:23-24 | upper-casing the lowercase digest gives the uppercase rendering |
| Hex.LowerOfLower | backend/helper.py:48 | lower-casing a lowercase digest leaves it unchanged |
| Decimal.Show | backend/helper.py:88-91 | `str` of an int: its digits without leading zeros, after a minus sign when negative |
| Decimal.ValueDigits | backend/helper.py:88-91 | reading back the digits of a natural number gives the number |
| Decimal.ShowInjective | backend/helper.py:88-91 | distinct integers render differently |
| Resolver.CheckSession | backend/helper.py:52-78 | an authenticated caller presented a one-dot cookie carrying the caller's tag, is stored with a non-empty email, and owns a session row with that exact token; a server error is exactly a raising decode; a missing or empty cookie is 401 |
| Resolver.CheckSessionIff | backend/helper.py:55-78 | the resolver returns a user exactly when the cookie is non-empty, decodes to the user's non-empty email, the user is the row for that email, and the first session with that token belongs to the user |
| Resolver.ResolvesOwnSession | backend/helper.py:52-75 | with unique user keys, a stored user's own session row whose cookie decodes to the user's email authenticates that user when no other row carries the same token |
| Resolver.FirstRowShadows | backend/helper.py:69-78 | when the first session row with a token, at whatever position it stands, names a different user from the one the cookie's email finds, the cookie is refused, even if a later row belongs to that user |
| Resolver.DeletedUserLockedOut | backend/repository/users.py:120-128 | after a user row is deleted, no cookie resolves to that user's id |
| UserRepository.GetId | backend/repository/users.py:25-39 | a returned row is stored and has the id; None exactly when no row has it |
| UserRepository.GetEmail | backend/repository/users.py:41-55 | a returned row is stored and has the email; None exactly when no row has it |
| UserRepository.GetIdUnique | backend/repository/users.py:25-39 | in a store with unique keys, the lookup by a stored row's id returns that row |
| UserRepository.GetEmailUnique | backend/repository/users.py:41-55 | in a store with unique keys, the lookup by a stored row's email returns that row |
| UserRepository.Create | backend/repository/users.py:57-80 | an unused email appends one non-admin row with the given fields and a fresh id, touching nothing else; a used email is refused and changes nothing |
| UserRepository.SetFields | backend/repository/users.py:96-101 | exactly the rows with the id get the new username, email and password; ids, admin flags and other rows are kept |
| UserRepository.Update | backend/repository/users.py:93-118 | None exactly when the id is absent, with no change; the email refusal exactly when the id is stored and another row holds the email, with no change; otherwise the row returned carries the new fields and only the rows with that id change |
| UserRepository.Delete | backend/repository/users.py:120-128 | exactly the rows with that id are removed; sessions and the other tables are untouched |
| UserRepository.GetAll | backend/repository/users.py:82-91 | every stored row and nothing else |
| UserRepository.CreatePreservesValid | backend/repository/users.py:57-80 | an insert keeps the store's keys unique (`Store.Valid`: unique user ids and emails, one session per user, unique account ids and transaction ids, counters ahead of every id) |
| UserRepository.UpdatePreservesValid | backend/repository/users.py:93-118 | an update keeps the store's keys unique |
| UserRepository.DeletePreservesValid | backend/repository/users.py:120-128 | a delete keeps the store's keys unique |
| SessionsRepository.GetByToken | backend/repository/sessions.py:22-36 | a returned row is stored and carries the token; None exactly when no row does |
| SessionsRepository.GetByTokenUnique | backend/repository/sessions.py:22-36 | a row whose token no other row carries is the row found by that token |
| SessionsRepository.GetByUserId | backend/repository/sessions.py:59-73 | a returned row is stored and belongs to the user; None exactly when no row does |
| SessionsRepository.Create | backend/repository/sessions.py:38-57 | afterwards the user's session is the returned row, carrying the new token; a new user gets one appended row with a fresh id; an existing row keeps its id and changes only its token; other users' rows are untouched; one session per user is kept; re-storing the same token changes nothing |
| Store.SessionOfUser | backend/repository/sessions.py:41-43 | under the UNIQUE(user_id) that the upsert's ON CONFLICT (user_id) presupposes, two session rows of one user are the same row |
| SessionsRepository.Delete | backend/repository/sessions.py:75-83 | exactly the rows with that id are removed and nothing else changes |
| SessionsRepository.ReloginRetiresOldToken | backend/repository/sessions.py:38-57 | after an upsert with a new token, the old token no longer finds the user's row |
| PaymentRepository.Create | backend/repository/payment.py:24-50 | an unused transaction id appends one row with the given fields and a fresh id and returns it; a used one returns None with no change; existing rows are never modified and transaction ids stay unique |
| PaymentRepository.CreateIdempotent | backend/repository/payment.py:24-50 | a second insert with a transaction id already inserted returns nothing and changes nothing, whatever its other fields |
| PaymentRepository.GetByUserId | backend/repository/payment.py:52-62 | exactly the user's payment rows, with their multiplicities |
| AccountRepository.GetByUserId | backend/repository/account.py:22-32 | exactly the user's account rows, with their multiplicities |
| AccountRepository.GetId | backend/view/payment/view.py:31 | assumed lookup by id: a returned row is stored and has the id; None exactly when no row has it |
| AccountRepository.Create | backend/view/payment/view.py:40-42 | assumed insert: appends the account with the given id, owner and balance, which the lookup then finds when the id was new |
| AccountRepository.Increase | backend/view/payment/view.py:57-60 | assumed credit: the rows with the id gain the delta, and nothing else changes |
| AccountRepository.IncreaseBalance | backend/view/payment/view.py:57-60 | for a stored id, the balance the lookup reports grows by exactly the delta and the owner is kept |
| UserView.AuthUsers | backend/view/user/view.py:15-43 | an unknown email and a wrong password are refused with the store unchanged, and a stored email with the matching digest succeeds; a success returns the email's cookie, which the user's session row now carries, and changes only the session table |
| UserView.LoginIdempotent | backend/view/user/view.py:22-43 | a second login returns the same token and leaves the store as the first left it |
| UserView.LoginThenResolve | backend/view/user/view.py:39-43 | in a store with unique keys, for a non-empty email, and when no other user's session row already carries the token, the token a login returns resolves to the user who logged in |
| UserView.GetUsers | backend/view/user/view.py:46-75 | no id or id 0 gives the caller's profile; another id is 403 exactly for non-admins, "does not exist" exactly for an admin asking for an absent id, and for an admin asking for a stored id the profile of the row the lookup finds |
| UserView.AdminSeesStoredProfile | backend/view/user/view.py:63-75 | with unique ids an admin asking for any stored user's id (other than 0) gets exactly that user's profile, and asking for their own id is the same as asking for none |
| AdminView.CreateUsers | backend/view/admin/view.py:14-40 | a non-admin is refused and a used email is refused, both with the store unchanged; otherwise one row is appended whose password is the 64-digit digest of the given password |
| AdminView.GetAllUsers | backend/view/admin/view.py:43-52 | 403 exactly for non-admins; every stored user for admins |
| AccountsView.GetAccounts | backend/view/accounts/view.py:13-19 | exactly the caller's accounts |
| AccountsView.GetUserAccounts | backend/view/accounts/view.py:22-42 | 403 for non-admins; "does not exist" exactly for an absent id; otherwise exactly that user's accounts |
| AccountsView.AdminSeesOwnersView | backend/view/accounts/view.py:13-42 | an admin asking for a stored user's accounts gets what that user sees |
| PaymentView.Settle | backend/view/payment/view.py:43-62 | an account of another owner is refused with no change; otherwise a new transaction appends one payment and credits the account, and a known one changes nothing; either way the reply is accepted |
| PaymentView.CreatePayment | backend/view/payment/view.py:14-62 | a bad signature is refused first; the missing-user and wrong-owner refusals happen exactly in their cases, and no refusal changes the store; acceptance leaves the transaction stored and an account of the payer under the id; keys stay unique |
| PaymentView.ReplayUnchanged | backend/view/payment/view.py:49-62 | replaying a stored transaction for an existing account leaves the store unchanged |
| PaymentView.DeliverTwice | backend/view/payment/view.py:14-62 | delivering a webhook twice has the effect of delivering it once |
| PaymentView.CreditIffInserted | backend/view/payment/view.py:50-60 | for an accepted webhook on an existing account, the balance grows by the amount exactly when the transaction id was new |
| PaymentView.DoubleCreditOnNewAccount | backend/view/payment/view.py:40-60 | the first payment on a new account is accepted, leaves a balance of twice the amount, and appends exactly one payment row with the next payment id |
| PaymentView.PartialApplication | backend/view/payment/view.py:40-57 | a new account with a used transaction id is opened with the amount, and no payment row is added |
| PaymentView.ListPayments | backend/view/payment/view.py:65-71 | exactly the caller's payment rows |
| Scenarios.WebhookRun | backend/view/payment/view.py:14-62 | pay 500 to a new account, replay it, then pay 300: balances 1000, 1000, 1300 and 1, 1, 2 payment rows |
| Scenarios.LoginResolveDelete | backend/helper.py:52-78 | a login's cookie resolves to the user; after the user is deleted it does not, though the session row remains |
| Scenarios.StaleSessionShadowsRecreatedUser | backend/repository/sessions.py:22-36 | a user deleted and created again under the same email has the login cookie refused: with rows in insertion order, the old row with the same token comes first and names the old id |

## Left out

- Database I/O, SQLAlchemy sessions, transactions and `async`. Every repository call is one atomic step on the store value. Concurrent webhook deliveries, and the atomicity of the balance increment, are not modelled.
- The FastAPI layer:
  - routing, `Depends`, reading the cookie, and `response.set_cookie`;
  - the difference between a raised and a returned `HTTPException`. Each endpoint's refusals are mapped to a `Store.Rejection`, and the resolver's outcomes to `Resolver.AuthResult`.
- SHA-256 itself. It is a function parameter of `Crypto.Env`, so collision resistance is neither assumed nor proved. `hmac.compare_digest`'s constant-time behaviour is modelled as plain equality; its TypeError on non-ASCII strings is kept.
- `created_timestamp` columns, and the database's serial sequences beyond "a fresh id above every stored one". Sequence gaps left by refused inserts are not modelled.
- The `accounts` operations `get_id`, `create` and `increase`. They are called by the webhook, but backend/repository/account.py does not define them. `AccountRepository.GetId`, `Create` and `Increase` are assumptions: lookup by id, insert with the given balance, and add a delta.
- The schema is not part of this model. These constraints are assumed from the data model:
  - unique user emails;
  - one session per user;
  - unique account ids;
  - unique transaction ids;
  - `users.is_admin` defaulting to false.
- `UserRepository.Create`: the unique-email refusal stands for the database's constraint error, which the source does not catch.
- `UserRepository.Update`: `EmailTaken` likewise stands for the database's constraint error on UNIQUE(email), which the source does not catch.
- Row order. A lookup (`Seqs.Find`) returns the first matching row in insertion order, although a SELECT without ORDER BY promises no order, and PostgreSQL may move a row that an UPDATE rewrites. The schema is also assumed to have no UNIQUE(token) on `user_sessions` and no foreign key or ON DELETE CASCADE from `user_sessions.user_id`. The stale-session behaviour (`Resolver.FirstRowShadows`, `Scenarios.StaleSessionShadowsRecreatedUser`) rests on all three.
- Lone surrogates. A Python `str` can hold them and `.encode()` raises UnicodeEncodeError on them (helper.py lines 30, 48 and 92), which would end in a 500. A Dafny `string` cannot hold them, so `Utf8.Encode` is total and that error is not modelled.
- `AccountRepository.Create`: it does not model the primary-key violation of inserting an id that is already stored, because the webhook inserts only after the lookup found nothing.
- Database integer widths. Ids, amounts and balances are unbounded integers, so overflow of the `balance` column is not modelled.
- `auth_users` reads the user by email twice. Both reads see the same store and are modelled as one.
- Logging, configuration loading, the application state singleton, startup and migrations.
