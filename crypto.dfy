/** The two cryptographic collaborators, left uninterpreted in the sense that
    matters here: bcrypt's `hash`/`compare` and the JWT service's
    `sign`/`decode`/`verify`. Salts, cost factors, signatures and the `iat`
    claim are not modelled. */
module Crypto {
  import opened Common

  /** A bcrypt digest of a secret. The only way to build one is `Hash`. */
  datatype Digest<T> = Digest(secret: T)

  /** `bcrypt.hash`: distinct secrets give distinct digests. */
  function Hash<T>(secret: T): (d: Digest<T>)
  {
    Digest(secret)
  }

  /** `bcrypt.compare(plain, digest)`. */
  predicate Compare<T(==)>(plain: T, d: Digest<T>)
  {
    d == Hash(plain)
  }

  lemma CompareIsHashEquality<T>(plain: T, other: T)
    ensures Compare(plain, Hash(other)) <==> plain == other
  {
  }

  /** `bcrypt.compare(token, digest)` as bcrypt computes it: only the first 72
      bytes of the token are read. For a token of this service those bytes are
      the fixed header and the start of the `sub` claim, so any two tokens of
      one subject compare equal. */
  predicate CompareTruncated(plain: Jwt, d: Digest<Jwt>)
  {
    plain.claims.sub == d.secret.claims.sub
  }

  /** Two different tokens of one subject: the whole-token comparison tells
      them apart, the truncated one does not. */
  lemma TruncationConfusesTokens(t: Jwt, other: Jwt)
    requires t != other && t.claims.sub == other.claims.sub
    ensures !Compare(t, Hash(other)) && CompareTruncated(t, Hash(other))
  {
  }

  /** The signing secret of the JWT module (`JWT_SECRET`). */
  datatype Key = Key(secret: string)

  /** The payload of a token: subject, expiry (seconds since the epoch) and an
      optional token id (`jwtid`). */
  datatype Claims = Claims(sub: Id, exp: int, jti: Option<nat>)

  /** A signed token: its claims and the key that signed it. A token signed
      with another key stands for a forged or foreign token. */
  datatype Jwt = Jwt(claims: Claims, signedWith: Key)

  /** `expiresIn: '30d'`, in seconds. */
  const RefreshTokenLifetime: nat := 30 * 24 * 60 * 60

  /** Seconds since the epoch for a clock reading in milliseconds (`Math.floor(Date.now() / 1000)`). */
  function Seconds(nowMs: int): int
  {
    nowMs / 1000
  }

  lemma SecondsBounds(nowMs: int)
    ensures Seconds(nowMs) * 1000 <= nowMs < Seconds(nowMs) * 1000 + 1000
  {
  }

  /** `jwtService.sign({ sub }, { expiresIn, jwtid })` at time `nowMs`. */
  function Sign(key: Key, sub: Id, lifetime: nat, nowMs: int, jti: Option<nat>): (t: Jwt)
    ensures t.claims.sub == sub && t.signedWith == key && t.claims.jti == jti
    ensures t.claims.exp == Seconds(nowMs) + lifetime
    ensures lifetime > 0 <==> nowMs < t.claims.exp * 1000
  {
    SecondsBounds(nowMs);
    Jwt(Claims(sub, Seconds(nowMs) + lifetime, jti), key)
  }

  /** `jwtService.decode(token)`: the claims, without checking the signature. */
  function Decode(t: Jwt): Claims
  {
    t.claims
  }

  /** `jwtService.verify(token)`: rejects a token signed with another key
      (`JsonWebTokenError`) and one whose `exp` is not after the current second
      (`TokenExpiredError`); otherwise yields its claims. */
  function Verify(key: Key, t: Jwt, nowMs: int): (r: Result<Claims>)
    ensures r.Ok? <==> t.signedWith == key && nowMs < t.claims.exp * 1000
    ensures r.Ok? ==> r.value == t.claims
    ensures r.Err? ==> r.error.JwtRejected?
  {
    if t.signedWith != key then Err(JwtRejected("JsonWebTokenError"))
    else if Seconds(nowMs) >= t.claims.exp then Err(JwtRejected("TokenExpiredError"))
    else Ok(t.claims)
  }
}
