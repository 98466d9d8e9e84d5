/** The two Express guards of `middleware/authMiddleware.js`: the blocking
    `authenticateWithIp` and the non-blocking `optionalAuth`. A request is reduced to
    the headers they read; a call is reduced to the response it sends, whether it hands
    on to the next handler, and what it attaches to the request. */
module AuthMiddleware {
  import opened Results
  import opened JsText
  import opened Signer
  import opened Session
  import IpUtils

  const BearerPrefix := "Bearer "
  const NoTokenMessage := "Токен не предоставлен"
  const AuthFailedMessage := "Ошибка аутентификации"

  /** `authorization`, `x-forwarded-for` and `x-real-ip` headers (absent or present), and
      the socket's remote address. */
  datatype Request = Request(authorization: Option<string>, forwardedFor: Option<string>,
                             realIp: Option<string>, remoteAddress: string)

  /** The JSON error body: `success` is always false; `clientIp` only on 403. */
  datatype ErrorBody = ErrorBody(error: Option<string>, clientIp: Option<string>)

  datatype Response = Response(status: nat, body: ErrorBody)

  /** What one pass through a guard does: the response it sends, if any; whether it calls
      `next()`; and the `req.user` / `req.clientIp` it sets. */
  datatype Outcome = Outcome(response: Option<Response>, next: bool, user: Option<Decoded>, clientIp: Option<string>)

  /** The validation step as the guards see it: `Failure` stands for a thrown exception. */
  type Validator = (string, string) -> Result<Validation, string>

  predicate IsBearer(authorization: Option<string>) {
    authorization.Some? && StartsWith(authorization.value, BearerPrefix)
  }

  /** `authHeader.substring(7)`: the text after `Bearer `. */
  function BearerToken(header: string): (t: string)
    requires StartsWith(header, BearerPrefix)
    ensures BearerPrefix + t == header
  {
    header[|BearerPrefix|..]
  }

  function ClientIpOf(req: Request): string {
    IpUtils.GetClientIp(req.forwardedFor, req.realIp, req.remoteAddress)
  }

  function Halt(status: nat, body: ErrorBody): Outcome {
    Outcome(Some(Response(status, body)), false, None, None)
  }

  /** `authenticateWithIp`: 401 without a bearer header, 500 when validation throws, 403
      with the validation's error and the client address when it refuses, and otherwise
      the decoded claims and the address are attached and the next handler runs. Exactly
      one of "respond" and "call next" happens. */
  function AuthenticateWithIp(validate: Validator, req: Request): (r: Outcome)
    ensures r.response.Some? != r.next
    ensures !IsBearer(req.authorization) ==> r == Halt(401, ErrorBody(Some(NoTokenMessage), None))
    ensures IsBearer(req.authorization) ==>
      var v := validate(BearerToken(req.authorization.value), ClientIpOf(req));
      && (v.Failure? ==> r == Halt(500, ErrorBody(Some(AuthFailedMessage), None)))
      && (v.Success? && !v.value.valid ==> r == Halt(403, ErrorBody(v.value.error, Some(ClientIpOf(req)))))
      && (r.next <==> v.Success? && v.value.valid)
      && (r.next ==> r.user == v.value.decoded && r.clientIp == Some(ClientIpOf(req)))
  {
    if !IsBearer(req.authorization) then Halt(401, ErrorBody(Some(NoTokenMessage), None))
    else
      var token := BearerToken(req.authorization.value);
      var clientIp := ClientIpOf(req);
      match validate(token, clientIp)
      case Failure(_) => Halt(500, ErrorBody(Some(AuthFailedMessage), None))
      case Success(v) =>
        if !v.valid then Halt(403, ErrorBody(v.error, Some(clientIp)))
        else Outcome(None, true, v.decoded, Some(clientIp))
  }

  /** `optionalAuth`: never responds and always calls the next handler once; the user and
      address are attached exactly when a bearer token validates. */
  function OptionalAuth(validate: Validator, req: Request): (r: Outcome)
    ensures r.response.None? && r.next
    ensures r.user.Some? || r.clientIp.Some? ==> IsBearer(req.authorization)
    ensures r.user.Some? ==> r.clientIp.Some?
    ensures IsBearer(req.authorization) ==>
      var v := validate(BearerToken(req.authorization.value), ClientIpOf(req));
      && (r.clientIp.Some? <==> v.Success? && v.value.valid)
      && (r.clientIp.Some? ==> r.user == v.value.decoded && r.clientIp == Some(ClientIpOf(req)))
      && (!(v.Success? && v.value.valid) ==> r.user.None? && r.clientIp.None?)
  {
    if !IsBearer(req.authorization) then Outcome(None, true, None, None)
    else
      var token := BearerToken(req.authorization.value);
      var clientIp := ClientIpOf(req);
      match validate(token, clientIp)
      case Failure(_) => Outcome(None, true, None, None)
      case Success(v) =>
        if v.valid then Outcome(None, true, v.decoded, Some(clientIp)) else Outcome(None, true, None, None)
  }

  /** The optional guard attaches exactly what the blocking guard attaches when the
      blocking guard lets the request through, and nothing when it would block it. */
  lemma OptionalAgreesWithBlocking(validate: Validator, req: Request)
    ensures var strict := AuthenticateWithIp(validate, req);
      var lenient := OptionalAuth(validate, req);
      && (strict.next ==> lenient == strict)
      && (!strict.next ==> lenient == Outcome(None, true, None, None))
  {
  }

  /** Without a bearer header the guards never consult the validator. */
  lemma MissingBearerIgnoresValidator(v1: Validator, v2: Validator, req: Request)
    requires !IsBearer(req.authorization)
    ensures AuthenticateWithIp(v1, req) == AuthenticateWithIp(v2, req)
    ensures OptionalAuth(v1, req) == OptionalAuth(v2, req)
  {
  }

  /** The guard wired to the authority's own validation, at a given state and time. */
  function ServiceValidator(st: State, cfg: Config, now: nat): Validator {
    (token: string, ip: string) => Success(ValidateTokenWithIp(st, cfg, now, token, ip))
  }

  /** End to end: a request passes the blocking guard exactly when it carries
      `Bearer <token>` and the token is accepted from the address `getClientIp` derives;
      then the attached user is the token's signed payload. The guard never answers 500,
      since validation never throws. */
  lemma GuardAdmitsExactlyAccepted(st: State, cfg: Config, now: nat, req: Request)
    ensures var r := AuthenticateWithIp(ServiceValidator(st, cfg, now), req);
      && (r.response.Some? ==> r.response.value.status in {401, 403})
      && (r.next <==> IsBearer(req.authorization)
                      && AccessAccepted(st, cfg, now, BearerToken(req.authorization.value), ClientIpOf(req)))
      && (r.next ==> r.user == Some(st.ledger[BearerToken(req.authorization.value)].payload))
  {
  }

  /** The bearer token of `Bearer <t>` is `t`, whatever `t` holds. */
  lemma BearerRoundTrip(t: string)
    ensures StartsWith(BearerPrefix + t, BearerPrefix)
    ensures BearerToken(BearerPrefix + t) == t
  {
    assert (BearerPrefix + t)[..|BearerPrefix|] == BearerPrefix;
  }

  /** `X-Forwarded-For` outranks `X-Real-IP` and the socket: the guard checks the token
      against the first forwarded entry, so the proxy's header decides which address is
      checked. */
  lemma ForwardedHeaderDecidesAddress(st: State, cfg: Config, now: nat, req: Request)
    requires IsBearer(req.authorization) && IpUtils.Truthy(req.forwardedFor)
    ensures var r := AuthenticateWithIp(ServiceValidator(st, cfg, now), req);
      r.next <==> AccessAccepted(st, cfg, now, BearerToken(req.authorization.value),
                                 Trim(FirstField(req.forwardedFor.value, ',')))
  {
  }
}
