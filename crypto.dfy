/**
 * The two cryptographic collaborators of the server, bcrypt and jsonwebtoken,
 * as abstract functions. Their internals (salt generation, cost factor,
 * constant-time comparison, HMAC signing) are not modelled; what the server
 * relies on is stated as the laws below, which callers take as preconditions.
 */
module Crypto {
  import opened Wrappers

  /** The output of `bcrypt.genSalt(10)`; where it comes from (randomness) is a parameter. */
  type Salt = string

  /** The signing key passed to `jwt.sign` and `jwt.verify` at all three call sites. */
  const SecretKey: string := "secret-key"

  /** `bcrypt.hash(plaintext, salt)` and `bcrypt.compare(plaintext, encoded)`. */
  datatype Hasher = Hasher(hash: (string, Salt) -> string, compare: (string, string) -> bool)

  /** bcrypt's promise: a password always matches its own hash, whatever the salt. */
  ghost predicate HashRoundTrip(h: Hasher)
  {
    forall p: string, s: Salt :: h.compare(p, h.hash(p, s))
  }

  /**
   * An idealised hasher under which no other password matches a hash. bcrypt
   * itself only approximates this (it ignores bytes past the 72nd), so lemmas
   * that need it say so.
   */
  ghost predicate HashBinding(h: Hasher)
  {
    forall p: string, q: string, s: Salt ::
      h.compare(p, h.hash(q, s)) ==> p == q
  }

  /**
   * The claims the server signs, `{ userId: user._id }`, together with the
   * `iat` (issued-at, seconds) claim that `jwt.sign` adds from the clock.
   */
  datatype Payload = Payload(userId: nat, iat: nat)

  /** `jwt.sign(payload, key)` and `jwt.verify(token, key)`, the latter flattened to a tagged result. */
  datatype Jwt = Jwt(sign: (Payload, string) -> string, verify: (string, string) -> Option<Payload>)

  /** A token signed with the server's key verifies, under that key, to the payload it was signed with. */
  ghost predicate JwtRoundTrip(j: Jwt)
  {
    forall p: Payload :: j.verify(j.sign(p, SecretKey), SecretKey) == Some(p)
  }

  /**
   * A compact JWT is three base64url segments joined by '.': it is never
   * empty and never contains a space, so it survives an `Authorization` header.
   */
  ghost predicate TokensHeaderSafe(j: Jwt)
  {
    forall p: Payload :: j.sign(p, SecretKey) != [] && ' ' !in j.sign(p, SecretKey)
  }

  /** Everything the server assumes of its token library. */
  ghost predicate JwtLaws(j: Jwt)
  {
    JwtRoundTrip(j) && TokensHeaderSafe(j)
  }
}
