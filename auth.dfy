/**
 * The `/register` and `/login` handlers over the credential store. Each
 * request is one transition: register looks the email up and, if it is new,
 * saves a user (whose password the pre-save hook hashes) and signs a token
 * for the new id; login looks the email up, compares the password with the
 * stored hash and signs a token for the found id.
 */
module Auth {
  import opened Wrappers
  import opened Crypto
  import opened Http
  import opened Users
  import opened Guard

  /** `req.body` of `POST /register`. */
  datatype RegisterBody = RegisterBody(fullName: string, role: string, phoneNumber: string,
                                       email: string, password: string)

  /** `req.body` of `POST /login`. */
  datatype LoginBody = LoginBody(email: string, password: string)

  /** `res.status(400).json({ error: 'User already exists' })`. */
  const UserExists: Response := Response(400, ErrorBody("User already exists"))

  /** `res.status(400).json({ error: 'Invalid credentials' })`, for a missing email and a wrong password alike. */
  const InvalidCredentials: Response := Response(400, ErrorBody("Invalid credentials"))

  /** `jwt.sign({ userId: id }, 'secret-key')`, issued at time `now`. */
  function IssueToken(j: Jwt, id: nat, now: nat): (token: string)
  {
    j.sign(Payload(id, now), SecretKey)
  }

  /** The record a successful registration stores: the body's fields, the password hashed. */
  function NewUser(id: nat, b: RegisterBody, h: Hasher, salt: Salt): (u: User)
  {
    User(id, b.fullName, b.role, b.phoneNumber, b.email, h.hash(b.password, salt))
  }

  /** The response of one registration and the collection and id allocator after it. */
  datatype RegisterResult = RegisterResult(response: Response, users: seq<User>, nextId: nat)

  /** What `POST /register` does to a store holding `users` whose next fresh id is `nextId`. */
  function RegisterSpec(users: seq<User>, nextId: nat, b: RegisterBody, h: Hasher, salt: Salt,
                        j: Jwt, now: nat): (r: RegisterResult)
    ensures r.response == UserExists <==> exists k :: 0 <= k < |users| && users[k].email == b.email
    ensures r.response == UserExists ==> r.users == users && r.nextId == nextId
    ensures r.response != UserExists ==>
              r.response.status == 200 && r.nextId == nextId + 1 &&
              |r.users| == |users| + 1 && r.users[..|users|] == users &&
              r.users[|users|].id == nextId && r.users[|users|].email == b.email &&
              r.users[|users|].password == h.hash(b.password, salt)
  {
    if FindByEmail(users, b.email).Some? then
      RegisterResult(UserExists, users, nextId)
    else
      RegisterResult(TokenResponse(IssueToken(j, nextId, now)),
                     users + [NewUser(nextId, b, h, salt)], nextId + 1)
  }

  /** What `POST /login` answers over a store holding `users`. */
  function LoginSpec(users: seq<User>, b: LoginBody, h: Hasher, j: Jwt, now: nat): (res: Response)
    ensures res.status == 200 || res == InvalidCredentials
    ensures res.status == 200 ==>
              exists k :: 0 <= k < |users| && users[k].email == b.email &&
                          h.compare(b.password, users[k].password) &&
                          res == TokenResponse(IssueToken(j, users[k].id, now))
  {
    match FindByEmail(users, b.email)
    case None => InvalidCredentials
    case Some(u) =>
      if h.compare(b.password, u.password) then TokenResponse(IssueToken(j, u.id, now))
      else InvalidCredentials
  }

  /** `POST /register` (index.js:147-173) against the store. */
  method Register(store: UserStore, b: RegisterBody, h: Hasher, salt: Salt, j: Jwt, now: nat)
    returns (res: Response)
    requires store.Valid()
    modifies store
    ensures store.Valid()
    ensures RegisterResult(res, store.users, store.nextId)
            == RegisterSpec(old(store.users), old(store.nextId), b, h, salt, j, now)
  {
    var existingUser := store.FindOne(b.email);
    if existingUser.Some? {
      return UserExists;
    }
    var user := store.NewDocument(b.fullName, b.role, b.phoneNumber, b.email, b.password);
    UpsertChangesOnlyThatRecord(store.users, NewUser(user.id, b, h, salt));
    store.Save(user, h, salt);
    var token := j.sign(Payload(user.id, now), SecretKey);
    res := TokenResponse(token);
  }

  /** `POST /login` (index.js:177-201): it only reads the store. */
  method Login(store: UserStore, b: LoginBody, h: Hasher, j: Jwt, now: nat) returns (res: Response)
    ensures res == LoginSpec(store.users, b, h, j, now)
    ensures res.status == 200 || res == InvalidCredentials
  {
    var user := store.FindOne(b.email);
    if user.None? {
      return InvalidCredentials;
    }
    var isMatch := h.compare(b.password, user.value.password);
    if !isMatch {
      return InvalidCredentials;
    }
    var token := j.sign(Payload(user.value.id, now), SecretKey);
    res := TokenResponse(token);
  }

  /** An email already in the store is refused with 400 and nothing changes. */
  lemma RegisterRejectsDuplicate(users: seq<User>, nextId: nat, b: RegisterBody, h: Hasher, salt: Salt,
                                 j: Jwt, now: nat, k: nat)
    requires k < |users| && users[k].email == b.email
    ensures RegisterSpec(users, nextId, b, h, salt, j, now) == RegisterResult(UserExists, users, nextId)
  {
  }

  /**
   * A new email adds exactly one record: the body's fields under the fresh
   * id, with the hash of the password in place of the password; every
   * existing record stays as it was, and the token issued names the new id.
   */
  lemma RegisterAddsOneUser(users: seq<User>, nextId: nat, b: RegisterBody, h: Hasher, salt: Salt,
                            j: Jwt, now: nat)
    requires JwtLaws(j)
    requires forall k :: 0 <= k < |users| ==> users[k].email != b.email
    ensures var r := RegisterSpec(users, nextId, b, h, salt, j, now);
            && |r.users| == |users| + 1 && r.users[..|users|] == users
            && r.users[|users|] == User(nextId, b.fullName, b.role, b.phoneNumber, b.email, h.hash(b.password, salt))
            && r.nextId == nextId + 1
            && r.response.status == 200 && r.response.body.TokenBody?
            && j.verify(r.response.body.token, SecretKey) == Some(Payload(nextId, now))
  {
    var r := RegisterSpec(users, nextId, b, h, salt, j, now);
    assert r.users == users + [NewUser(nextId, b, h, salt)];
  }

  /** Registration keeps ids unique and below the allocator, and keeps emails unique. */
  lemma RegisterKeepsStoreInvariants(users: seq<User>, nextId: nat, b: RegisterBody, h: Hasher, salt: Salt,
                                     j: Jwt, now: nat)
    requires IdsUnique(users) && EmailsUnique(users)
    requires forall k :: 0 <= k < |users| ==> users[k].id < nextId
    ensures var r := RegisterSpec(users, nextId, b, h, salt, j, now);
            IdsUnique(r.users) && EmailsUnique(r.users) && forall k :: 0 <= k < |r.users| ==> r.users[k].id < r.nextId
  {
  }

  /** Registering the same email twice in a row: the second attempt is refused. */
  lemma SecondRegistrationRefused(users: seq<User>, nextId: nat, b1: RegisterBody, b2: RegisterBody,
                                  h: Hasher, salt1: Salt, salt2: Salt, j: Jwt, now1: nat, now2: nat)
    requires b1.email == b2.email
    ensures var r1 := RegisterSpec(users, nextId, b1, h, salt1, j, now1);
            RegisterSpec(r1.users, r1.nextId, b2, h, salt2, j, now2) == RegisterResult(UserExists, r1.users, r1.nextId)
  {
    var r1 := RegisterSpec(users, nextId, b1, h, salt1, j, now1);
    if FindByEmail(users, b1.email).None? {
      assert r1.users[|users|].email == b2.email;
    }
  }

  /**
   * Login fails in one way only: whether the email is unknown or the password
   * does not match, the answer is the same 400 "Invalid credentials".
   */
  lemma LoginFailsUniformly(users: seq<User>, b: LoginBody, h: Hasher, j: Jwt, now: nat)
    ensures LoginSpec(users, b, h, j, now) == InvalidCredentials
            <==> (forall k :: 0 <= k < |users| ==> users[k].email != b.email)
                 || !h.compare(b.password, FindByEmail(users, b.email).value.password)
    ensures LoginSpec(users, b, h, j, now).status != 200 ==> LoginSpec(users, b, h, j, now) == InvalidCredentials
  {
  }

  /** Logging in with the email and password just registered succeeds, with a token for the new id. */
  lemma LoginAfterRegister(users: seq<User>, nextId: nat, b: RegisterBody, h: Hasher, salt: Salt,
                           j: Jwt, now1: nat, now2: nat)
    requires HashRoundTrip(h) && JwtLaws(j)
    requires forall k :: 0 <= k < |users| ==> users[k].email != b.email
    ensures var r := RegisterSpec(users, nextId, b, h, salt, j, now1);
            var res := LoginSpec(r.users, LoginBody(b.email, b.password), h, j, now2);
            res == TokenResponse(IssueToken(j, nextId, now2))
            && j.verify(res.body.token, SecretKey) == Some(Payload(nextId, now2))
  {
    var r := RegisterSpec(users, nextId, b, h, salt, j, now1);
    FindByEmailAt(r.users, b.email, |users|);
  }

  /**
   * With an idealised hasher under which only the password itself matches
   * its hash, any other password for the just-registered email is refused.
   */
  lemma WrongPasswordAfterRegister(users: seq<User>, nextId: nat, b: RegisterBody, h: Hasher, salt: Salt,
                                   j: Jwt, now1: nat, now2: nat, wrong: string)
    requires HashBinding(h)
    requires forall k :: 0 <= k < |users| ==> users[k].email != b.email
    requires wrong != b.password
    ensures var r := RegisterSpec(users, nextId, b, h, salt, j, now1);
            LoginSpec(r.users, LoginBody(b.email, wrong), h, j, now2) == InvalidCredentials
  {
    var r := RegisterSpec(users, nextId, b, h, salt, j, now1);
    FindByEmailAt(r.users, b.email, |users|);
  }

  /**
   * A token handed out by register or login, sent back as "Bearer <token>",
   * passes the route guard, which attaches the id the token was issued for:
   * all three sites use the same key.
   */
  lemma IssuedTokensPassGuard(users: seq<User>, nextId: nat, rb: RegisterBody, lb: LoginBody, h: Hasher,
                              salt: Salt, j: Jwt, now: nat)
    requires JwtLaws(j)
    ensures var r := RegisterSpec(users, nextId, rb, h, salt, j, now);
            r.response.status == 200 ==>
              r.response.body.TokenBody? &&
              Authenticate(Some("Bearer " + r.response.body.token), j) == Proceed(Payload(nextId, now))
    ensures var res := LoginSpec(users, lb, h, j, now);
            res.status == 200 ==>
              FindByEmail(users, lb.email).Some? && res.body.TokenBody? &&
              Authenticate(Some("Bearer " + res.body.token), j)
                == Proceed(Payload(FindByEmail(users, lb.email).value.id, now))
  {
    IssuedTokenAccepted(j, Payload(nextId, now));
    match FindByEmail(users, lb.email)
    case None =>
    case Some(u) => IssuedTokenAccepted(j, Payload(u.id, now));
  }
}
