# House-rent server: authentication core in Dafny

This project models the authentication core of a small Express server for a
house-rental listing application (`index.js`):

- the **credential store**: the `User` collection, the `new User(...)`
  document, and the mongoose pre-save hook that replaces a modified
  password with its bcrypt hash (`Users`, in `users.dfy`);
- the **register and login handlers** over that store. Register refuses a
  known email with 400 "User already exists". Otherwise it saves the user
  and signs a token for the new id. Login answers 400 "Invalid credentials"
  for an unknown email and for a wrong password alike; on success it signs
  a token for the found id (`Auth`, in `auth.dfy`);
- the **route guard** `authenticateToken`. It takes the second
  space-separated word of the `Authorization` header as the token. It gives
  401 when that word is missing or empty, and 403 when the token does not
  verify. Otherwise it sets `req.user` to the decoded payload and passes the
  request on. `GET /protected` sits behind it (`Guard`, in `guard.dfy`);
- the House schema's **phone-number validator**, the regular expression
  `^(\+?88|0088)?0[0-9]{10}$` (`Phone`, in `phone.dfy`).

bcrypt and jsonwebtoken are abstract. `Crypto.Hasher` and `Crypto.Jwt` are
records of functions. Their laws are predicates that the lemmas take as
preconditions:

- `HashRoundTrip`: a password matches its own hash, whatever the salt.
- `JwtRoundTrip`: a token signed with `'secret-key'` verifies under that
  key to the signed payload.
- `TokensHeaderSafe`: a signed token is non-empty and has no space.

The salt (`bcrypt.genSalt(10)`) and the clock behind jwt's `iat` claim are
parameters. `Http.Response` holds a status code and one of the three JSON
body shapes the handlers send.

Each handler is an imperative method. `Auth.Register` and `Auth.Login` work
over a `UserStore` object. `Guard.Request.AuthenticateToken` works on the
request object, whose `user` field it sets. Each method is proved equal to a
specification function (`RegisterSpec`, `LoginSpec`, `Authenticate`). The
lemmas then state the source's promises about those functions.

Three choices follow the code as written:

- The signing key is the hard-coded constant `'secret-key'` at all three
  call sites, not a configured secret.
- The guard separates a missing token (401) from a rejected one (403).
- Tokens are signed without an expiry, so verification never fails because
  a token has expired.

## Model

| member | source | states |
|---|---|---|
| Users.FindByEmail | index.js:149 | `User.findOne({ email })`: None exactly when no record has the email; otherwise the first record, in natural order, that has it |
| Users.UserStore.FindOne | index.js:182 | the lookup as a scan of the collection; it equals FindByEmail and only reads the store |
| Users.UserDoc.constructor | index.js:155-161 | a new document holds the given fields verbatim, with the password path marked modified |
| Users.UserDoc.PreSave | index.js:29-37 | the pre-save hook: a modified password is replaced by `hash(password, salt)`; an unmodified one is left alone |
| Users.UserStore.NewDocument | index.js:155-161 | `new User(...)` takes a fresh id above every stored id; the collection is untouched |
| Users.UserStore.Save | index.js:164 | `user.save()` runs the hook and stores the document's record, replacing a record with the same id. The modified flag is then cleared, and ids stay unique |
| Users.Upsert | index.js:164 | `user.save()` at the collection level: the saved record is present afterwards. The length is unchanged exactly when a record with that id was stored; otherwise the record is appended. Every record with another id keeps its position |
| Users.UpsertChangesOnlyThatRecord | index.js:164 | saving changes only the record with the saved id, keeps ids unique, and appends when the id is new |
| Users.UpsertIdempotent | index.js:164 | saving the same record twice leaves the collection as the first save did |
| Users.ResaveDoesNotRehash | index.js:31 | saving a document twice with nothing changed in between hashes its password once: the stored value is `hash(password, salt1)` |
| Auth.RegisterSpec | index.js:147-173 | the answer is "User already exists" exactly when some stored record has the email, and then nothing changes. Otherwise it answers 200, appends one record with the fresh id, the email and `hash(password, salt)`, keeps earlier records, and advances the id allocator |
| Auth.LoginSpec | index.js:177-201 | the answer is 200 or exactly "Invalid credentials". A 200 means a stored record has the email and a password that matches its hash, and the token is signed for that record's id |
| Auth.Register | index.js:147-173 | the handler (lookup, new document, save, sign) equals RegisterSpec and keeps the store's invariant |
| Auth.Login | index.js:177-201 | the handler (lookup, compare, sign) equals LoginSpec. It has no modifies clause, so it cannot change the store. It answers 200 or exactly "Invalid credentials" |
| Auth.RegisterRejectsDuplicate | index.js:149-152 | an email already stored gives 400 "User already exists", and the store and id allocator stay unchanged |
| Auth.RegisterAddsOneUser | index.js:155-169 | a new email appends exactly one record: the body's fields, the fresh id, `hash(password, salt)` as password. Earlier records are unchanged, and the token verifies to the new id |
| Auth.RegisterKeepsStoreInvariants | index.js:147-173 | registration keeps ids unique and below the allocator, and keeps emails unique |
| Auth.SecondRegistrationRefused | index.js:149-152 | registering the same email twice in a row: the second attempt is refused and changes nothing |
| Auth.LoginFailsUniformly | index.js:182-191 | login gives "Invalid credentials" exactly when the email is unknown or the password does not match the stored hash. Every non-200 answer is that one response |
| Auth.LoginAfterRegister | index.js:188-194 | after registering, logging in with the same email and password succeeds with a token that verifies to the new id |
| Auth.WrongPasswordAfterRegister | index.js:188-190 | under an idealised (binding) hasher, any other password for that email gets "Invalid credentials" |
| Auth.IssuedTokensPassGuard | index.js:217-222 | a token returned by register or login, sent as "Bearer <token>", passes the guard. The attached payload carries the id it was issued for |
| Guard.Split | index.js:211 | `split(' ')`: at least one piece, no piece contains the separator, and joining the pieces gives back the string |
| Guard.SplitJoin | index.js:211 | splitting a join of separator-free pieces gives back those pieces |
| Guard.BearerToken | index.js:210-211 | `authHeader && authHeader.split(' ')[1]`: a token, when there is one, is non-empty and has no space |
| Guard.Authenticate | index.js:213-222 | 401 exactly when there is no token; 403 exactly when there is one and it does not verify; otherwise proceeds with the verified payload |
| Guard.Request.AuthenticateToken | index.js:209-225 | the middleware decides as Authenticate does and sets `req.user` to the payload only when it proceeds |
| Guard.ProtectedRoute | index.js:204-206 | `GET /protected` answers 401, 403 or 200, and each status matches the guard's decision |
| Guard.UnauthorizedWithoutSpace | index.js:211-214 | a header without a space is refused with 401 |
| Guard.TokenAfterFirstSpace | index.js:211-214 | after the first space, the token is the longest run without a space. There is none (401) exactly when that space ends the header or another space follows it |
| Guard.SchemeWordIgnored | index.js:211 | the first word is never checked: any space-free word in place of "Bearer" gives the same token and the same decision |
| Guard.IssuedTokenAccepted | index.js:217-222 | "Bearer " + `sign(p, 'secret-key')` proceeds with payload p, and the protected route answers 200 |
| Phone.ValidPhone | index.js:89 | the validator's regular expression `.test(v)`, one disjunct per way the optional prefix group can match. An accepted string has length 11, 13, 14 or 15, starts with the prefix for that length, and ends in a zero and ten digits |
| Phone.MatchDigitsExactly | index.js:89 | `[0-9]{n}$` matches exactly the strings of n ASCII digits |
| Phone.AcceptedShapes | index.js:88-90 | the validator accepts exactly strings of length 11, 13, 14 or 15. The last eleven characters are a zero and ten digits. Before them stands "", "88", "+88" or "0088", as the length dictates |
| Phone.RejectsMalformed | index.js:89 | a wrong length, a non-digit among the last ten characters, or a non-zero eleventh-from-last character is rejected |
| Phone.AcceptsEachPrefix | index.js:89 | a local number with any of the four prefixes is accepted |

## Left out

- Express routing, `app.listen`, CORS and the JSON body parser (index.js:10-12, 228-234): HTTP plumbing.
- The MongoDB connection and environment variables (index.js:6, 8, 15-18): I/O and configuration.
- The House CRUD routes (index.js:103-145) and the House schema's other fields (`required`, Number and Date casting). They are thin wrappers over the persistence library. Only the schema's phone validator is modelled.
- The House schema, model and routes are declared inside the register handler (index.js:47-145), before its `try` (index.js:147). Every call builds a new Schema and calls `mongoose.model('House', houseSchema)` again (index.js:100). By mongoose's documented behaviour, with `overwriteModels` unset, that call throws OverwriteModelError once the name is registered with a different schema. So every registration after the first in a process would fail before the email lookup. The rejected promise escapes the handler, and Express 4 sends no response. This reading of mongoose is not modelled. The Auth members and lemmas, `Auth.SecondRegistrationRefused` among them, describe index.js:147-173 as if the House declarations had succeeded.
- The 500 "Server error" branches (index.js:170-173, 197-200). The in-memory store and the abstract hasher and signer never fail, so no store or hashing error is modelled.
- Request bodies with missing fields. Every body field is a string here. A missing `email` turns into `findOne({})` in mongoose, which is not modelled.
- Request bodies with non-string values. `express.json()` lets `email` arrive as an object such as `{"$ne": null}`. `findOne({ email })` then reads it as a query operator, so login compares the password with the first matching user's hash. The model's string-only bodies cannot express this.
- Mongo ObjectIds are generated ids. Here they come from a counter in the store, which gives the same uniqueness. `userId` is that number, not the ObjectId's hex string that the signed JSON carries.
- bcrypt's salt generation, cost factor and constant-time comparison, and the JWT signing algorithm. Only the laws listed above are assumed.
- Auth.WrongPasswordAfterRegister: needs an idealised binding hasher. bcrypt is not one, because it ignores password bytes past the 72nd.
- async/await and the callback form of `jwt.verify`. Each handler runs to completion sequentially.
- Concurrent registrations with the same email can both pass the lookup. The model is sequential, so it does not show this race.
