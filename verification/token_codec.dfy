/** JSON Web Tokens signed with an HMAC (python-jose's `jwt.encode` / `jwt.decode`),
    modelled symbolically. A token is either a parsed JWS (algorithm, claims, signature)
    or a string that does not parse at all. A signature is either the MAC of the claims
    under a key, or arbitrary bytes; the symbolic model assumes nobody can build the MAC
    without the key. Claims carry the registered `sub` and `exp` claims. */
module TokenCodec {
  import opened Wrappers

  /** The payload claims the core uses: subject and expiry (Unix seconds). Either may be
      absent in a token someone else built. */
  datatype Claims = Claims(sub: Option<string>, exp: Option<int>)

  datatype Signature = Mac(key: string, alg: string, claims: Claims) | Forged(bytes: string)

  datatype Token =
    | Jws(alg: string, claims: Claims, signature: Signature)
    | Unparseable(text: string)

  /** What `jwt.decode` yields: the claims, `ExpiredSignatureError`, or any other `JWTError`. */
  datatype Decoded = Valid(claims: Claims) | Expired | Malformed

  function Sign(key: string, alg: string, claims: Claims): Signature
  {
    Mac(key, alg, claims)
  }

  /** `jwt.encode(claims, key, algorithm)`. */
  function Encode(claims: Claims, key: string, alg: string): (t: Token)
    ensures t.Jws? && t.claims == claims && t.alg == alg
  {
    Jws(alg, claims, Sign(key, alg, claims))
  }

  /** `jwt.decode(token, key, algorithms)` at time `now`: the header algorithm must be one
      of `algorithms` and the signature must check, otherwise the token is malformed; a
      present `exp` strictly before `now` makes it expired (python-jose's leeway is 0). */
  function Decode(token: Token, key: string, algorithms: seq<string>, now: int): (d: Decoded)
    ensures d.Valid? ==> token.Jws? && token.alg in algorithms && token == Encode(d.claims, key, token.alg)
    ensures d.Valid? ==> d.claims.exp.None? || now <= d.claims.exp.value
    ensures d.Expired? <==>
      && token.Jws? && token.alg in algorithms
      && token.signature == Sign(key, token.alg, token.claims)
      && token.claims.exp.Some? && token.claims.exp.value < now
  {
    match token
    case Unparseable(_) => Malformed
    case Jws(alg, claims, signature) =>
      if alg !in algorithms || signature != Sign(key, alg, claims) then Malformed
      else if claims.exp.Some? && claims.exp.value < now then Expired
      else Valid(claims)
  }

  /** Decoding inverts encoding up to and including the expiry second, and reports
      expiry strictly after it. */
  lemma DecodeEncode(claims: Claims, key: string, alg: string, algorithms: seq<string>, now: int)
    requires alg in algorithms
    ensures claims.exp.None? || now <= claims.exp.value ==>
      Decode(Encode(claims, key, alg), key, algorithms, now) == Valid(claims)
    ensures claims.exp.Some? && claims.exp.value < now ==>
      Decode(Encode(claims, key, alg), key, algorithms, now) == Expired
  {
  }

  /** Tampering: a token whose claims were changed after signing, or which was signed with
      another key, never decodes to valid claims. */
  lemma TamperedTokenRejected(claims: Claims, forged: Claims, signer: string, key: string,
                              alg: string, algorithms: seq<string>, now: int)
    requires forged != claims || signer != key
    ensures Decode(Jws(alg, forged, Sign(signer, alg, claims)), key, algorithms, now).Malformed?
  {
  }
}
