/** The session issuer: jwt.sign(payload, JWT_SECRET, { expiresIn: '1h' }).

    Only the claims are modelled; the signature bytes are left to the
    library.  The signing secret is an input and is not part of the
    token. */
module Session {
  import opened Wrappers

  /** '1h', in seconds, as jsonwebtoken reads it. */
  const ExpiresIn := 3600

  /** The `user` object of the payload. */
  datatype Claims = Claims(id: nat, username: string)

  /** The signed payload: the claims plus the issued-at and expiry times
      (seconds since the epoch) that jsonwebtoken adds. */
  datatype Token = Token(user: Claims, iat: int, exp: int)

  /** A secret jsonwebtoken accepts: set, and not the empty string. */
  predicate Usable(secret: Option<string>) {
    secret.Some? && secret.value != ""
  }

  /** Signing at wall-clock time `now` (milliseconds).  jsonwebtoken
      refuses an unset or empty secret, synchronously; that is the only
      failure of HMAC signing the model keeps. */
  function Sign(user: Claims, secret: Option<string>, now: nat): (r: Option<Token>)
    ensures r.None? <==> secret.None? || secret.value == ""
    ensures r.Some? ==> r.value.user == user
    ensures r.Some? ==> r.value.iat * 1000 <= now < r.value.iat * 1000 + 1000
    ensures r.Some? ==> r.value.exp - r.value.iat == ExpiresIn
  {
    if !Usable(secret) then None
    else
      var iat := now / 1000;
      Some(Token(user, iat, iat + ExpiresIn))
  }
}
