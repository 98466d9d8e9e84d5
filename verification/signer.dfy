/** The JSON Web Token signer of `auth/jwtService.js`, abstracted. A token is an opaque
    text. Signing records which secret, claims and lifetime a fresh text stands for;
    verification succeeds only for a recorded text, under the secret it was signed
    with, before it expires. The ledger is the model's statement of HMAC
    unforgeability: no text that the system did not sign verifies. */
module Signer {
  import opened Results

  datatype TokenType = AccessType | RefreshType

  /** The payload `createTokenPair` signs. Its random `jti` is represented by the
      freshness of the signed text itself. */
  datatype Claims = Claims(
    userId: int,
    username: string,
    ip: string,
    allowedIps: Option<seq<string>>,
    tokenType: TokenType)

  /** What `jwt.verify` hands back: the claims plus the `iat` and `exp` fields it adds. */
  datatype Decoded = Decoded(claims: Claims, iat: nat, exp: nat)

  /** A signed token: its signing secret and its payload. */
  datatype Jwt = Jwt(secret: string, payload: Decoded)

  /** Every text the system has signed, with what it stands for. */
  type Ledger = map<string, Jwt>

  const InvalidSignature := "invalid signature"
  const JwtExpired := "jwt expired"

  /** `jwt.sign(claims, secret, { expiresIn: ttl })` at time `now`, yielding the fresh text `token`. */
  function Sign(ledger: Ledger, token: string, secret: string, claims: Claims, now: nat, ttl: nat): (r: Ledger)
    requires token !in ledger
    ensures r.Keys == ledger.Keys + {token}
    ensures forall t | t in ledger :: r[t] == ledger[t]
    ensures r[token].secret == secret && r[token].payload.claims == claims
    ensures r[token].payload.exp == now + ttl
  {
    ledger[token := Jwt(secret, Decoded(claims, now, now + ttl))]
  }

  /** `jwt.verify(token, secret)` at time `now`: the signature is checked first, then
      the expiry (a token is expired from the second `exp` on). */
  function Verify(ledger: Ledger, token: string, secret: string, now: nat): (r: Result<Decoded, string>)
    ensures r.Success? <==>
      token in ledger && ledger[token].secret == secret && now < ledger[token].payload.exp
    ensures r.Success? ==> r.value == ledger[token].payload
    ensures r.Failure? ==>
      r.error == (if token in ledger && ledger[token].secret == secret then JwtExpired else InvalidSignature)
  {
    if token !in ledger || ledger[token].secret != secret then Failure(InvalidSignature)
    else if now >= ledger[token].payload.exp then Failure(JwtExpired)
    else Success(ledger[token].payload)
  }

  /** Round trip: a freshly signed token verifies, until it expires, to exactly the
      claims it was signed with. */
  lemma SignThenVerify(ledger: Ledger, token: string, secret: string, claims: Claims, now: nat, ttl: nat, later: nat)
    requires token !in ledger
    requires now <= later < now + ttl
    ensures Verify(Sign(ledger, token, secret, claims, now, ttl), token, secret, later).Success?
    ensures Verify(Sign(ledger, token, secret, claims, now, ttl), token, secret, later).value.claims == claims
  {
  }

  /** A token signed in one domain never verifies in another. */
  lemma OtherSecretRejects(ledger: Ledger, token: string, secret: string, other: string, claims: Claims, now: nat, ttl: nat, later: nat)
    requires token !in ledger && other != secret
    ensures Verify(Sign(ledger, token, secret, claims, now, ttl), token, other, later) == Failure(InvalidSignature)
  {
  }

  /** Signing a new text changes the verdict on no other text. */
  lemma SignKeepsOtherVerdicts(ledger: Ledger, token: string, secret: string, claims: Claims, now: nat, ttl: nat,
                               t: string, s: string, later: nat)
    requires token !in ledger && t != token
    ensures Verify(Sign(ledger, token, secret, claims, now, ttl), t, s, later) == Verify(ledger, t, s, later)
  {
  }
}
