/** The two foreign libraries the handlers call, as oracles.

    jsonwebtoken: `sign` stands for jwt.sign with the server's fixed secret
    and `decode` for the signature check and payload parsing inside
    jwt.verify (None when the signature does not match or the text is not a
    token). The expiry test that jwt.verify adds on top is modelled here
    exactly: a token is refused once the current time reaches its `exp`
    claim (section 4.1.4 of RFC 7519).

    bcrypt: `hash` and `compare`, related only by `Consistent`. */
module Tokens {
  import opened Common

  /** The decoded payload that becomes `req.user`. Tokens issued by login
      carry no role; `iat` and `exp` are seconds. */
  datatype Claims = Claims(
    id: int,
    username: string,
    role: Option<string>,
    iat: Option<Time>,
    exp: Option<Time>)

  datatype Jwt = Jwt(sign: Claims -> string, decode: string -> Option<Claims>)

  datatype Bcrypt = Bcrypt(hash: string -> string, compare: (string, string) -> bool)

  /** What the model takes as given of jsonwebtoken: a token it signed decodes back
      to its claims, and its compact form (base64url parts and dots) is not
      empty and holds no space. */
  ghost predicate Sound(jwt: Jwt)
  {
    forall c :: jwt.decode(jwt.sign(c)) == Some(c) && jwt.sign(c) != "" && ' ' !in jwt.sign(c)
  }

  /** What the model takes as given of bcrypt: a password matches its own hash. */
  ghost predicate Consistent(b: Bcrypt)
  {
    forall p :: b.compare(p, b.hash(p))
  }

  predicate Expired(c: Claims, now: Time)
  {
    c.exp.Some? && now >= c.exp.value
  }

  /** jwt.verify(token, secret) at time `now`: None wherever the library
      throws. A missing or empty token is refused before any decoding
      ("jwt must be provided"); then a bad signature or shape, then an
      expired token. */
  function Verify(jwt: Jwt, token: Option<string>, now: Time): (r: Option<Claims>)
    ensures r.Some? <==>
      && token.Some? && token.value != ""
      && jwt.decode(token.value).Some? && !Expired(jwt.decode(token.value).value, now)
    ensures r.Some? ==> r == jwt.decode(token.value) && !Expired(r.value, now)
  {
    match token
    case None => None
    case Some(t) =>
      if t == "" then None
      else
        match jwt.decode(t)
        case None => None
        case Some(c) => if Expired(c, now) then None else Some(c)
  }

  /** Once a token has expired it stays expired; a token without `exp`
      never expires. */
  lemma ExpiryIsFinal(c: Claims, now: Time, later: Time)
    requires now <= later
    ensures Expired(c, now) ==> Expired(c, later)
    ensures c.exp.None? ==> !Expired(c, later)
  {
  }

  /** A token the server signed verifies to exactly its claims until it
      expires, and not after. */
  lemma SignedTokenVerifies(jwt: Jwt, c: Claims, now: Time)
    requires Sound(jwt)
    ensures Verify(jwt, Some(jwt.sign(c)), now) == if Expired(c, now) then None else Some(c)
  {
  }
}
