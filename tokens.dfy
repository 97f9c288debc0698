/** The JSON Web Token library as the server uses it: `jwt.sign` turns a claim
    record into a string, `jwt.verify` turns a string back into claims or
    throws. Signatures are not modelled: a `Codec` stands for the signing key,
    and any string it cannot decode is a token with a bad signature. Times are
    seconds. */
module Tokens {
  import opened Common

  /** The payload of an issued token. `role` is None for the tokens of the
      legacy controller, which sign `{ userId }` alone. */
  datatype Claims = Claims(userId: Id, role: Option<string>, issuedAt: nat, expiresIn: nat)

  /** The `expiresIn` windows used by the controllers: "24h" and "1h". */
  const Day: nat := 86400
  const Hour: nat := 3600

  /** Serialisation and signature check for one signing key. */
  datatype Codec = Codec(encode: Claims -> string, decode: string -> Option<Claims>)

  /** What a real signer guarantees: every token it issues decodes back to its
      claims, and is a non-empty string without spaces (base64url and dots). */
  ghost predicate Faithful(codec: Codec)
  {
    forall c :: codec.decode(codec.encode(c)) == Some(c) && codec.encode(c) != "" && ' ' !in codec.encode(c)
  }

  /** `jwt.sign(payload, key, { expiresIn })` as a claim record. */
  function Sign(userId: Id, role: Option<string>, now: nat, expiresIn: nat): (c: Claims)
    ensures c.userId == userId && c.role == role
    ensures forall t: nat :: IsExpired(c, t) <==> t >= now + expiresIn
  {
    Claims(userId, role, now, expiresIn)
  }

  /** Why `jwt.verify` throws. */
  datatype TokenError = Malformed | Expired

  /** The decoded token is past its `exp` claim: jsonwebtoken rejects it once
      the clock reaches `exp`. */
  predicate IsExpired(c: Claims, now: nat)
  {
    now >= c.issuedAt + c.expiresIn
  }

  /** `jwt.verify(token, key)`: an empty token ("jwt must be provided") or one
      that does not decode is malformed; a decoded one past its expiry is
      expired; otherwise its claims. */
  function Verify(codec: Codec, token: string, now: nat): (r: Result<Claims, TokenError>)
    ensures r.Ok? <==> token != "" && codec.decode(token).Some? && !IsExpired(codec.decode(token).value, now)
    ensures r.Ok? ==> codec.decode(token) == Some(r.value)
    ensures r == Err(Expired) <==> token != "" && codec.decode(token).Some? && IsExpired(codec.decode(token).value, now)
  {
    if token == "" then Err(Malformed)
    else match codec.decode(token)
      case None => Err(Malformed)
      case Some(c) => if IsExpired(c, now) then Err(Expired) else Ok(c)
  }

  /** A token issued by a faithful signer verifies to its own claims until it
      expires, and fails with `Expired` (never another error) afterwards. */
  lemma VerifyIssued(codec: Codec, c: Claims, now: nat)
    requires Faithful(codec)
    ensures !IsExpired(c, now) ==> Verify(codec, codec.encode(c), now) == Ok(c)
    ensures IsExpired(c, now) ==> Verify(codec, codec.encode(c), now) == Err(Expired)
  {
    assert codec.decode(codec.encode(c)) == Some(c);
  }
}
