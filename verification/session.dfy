/** The session authority of `auth/jwtService.js`: issuing, rotating and validating
    access/refresh pairs over the token store and the abstract signer. */
module Session {
  import opened Results
  import opened JsText
  import opened Signer
  import opened TokenStore
  import IpUtils

  /** The two signing secrets (`JWT_SECRET`, `REFRESH_SECRET`), read from the
      environment in the source with these fallbacks. */
  datatype Config = Config(accessSecret: string, refreshSecret: string)

  const DefaultConfig := Config("default-secret-key", "default-refresh-secret")

  /** Lifetimes in seconds. The access JWT is signed with `expiresIn: '30s'` while its
      row stores an access expiry 15 minutes ahead; the model keeps both, unreconciled. */
  const AccessJwtTtl: nat := 30
  const RefreshJwtTtl: nat := 7 * 24 * 60 * 60
  const StoredAccessTtl: nat := 15 * 60
  const StoredRefreshTtl: nat := 7 * 24 * 60 * 60
  const ExpiresInSeconds: nat := 900
  const BearerType := "Bearer"

  const RefreshErrorPrefix := "Ошибка обновления токена: "
  const VerifyErrorPrefix := "Ошибка верификации токена: "
  const WrongTypeMessage := "Неверный тип токена"
  const RefreshNotFoundMessage := "Refresh token не найден или отозван"
  const IpMismatchMessage := "IP-адрес не соответствует токену"
  const RevokedOrExpiredMessage := "Токен отозван или истек"

  /** Everything the authority reads and writes: the token table and the signed texts. */
  datatype State = State(store: Store, ledger: Ledger)

  const InitialState := State(EmptyStore, map[])

  /** The object `createTokenPair` resolves to. */
  datatype TokenPair = TokenPair(accessToken: string, refreshToken: string, expiresIn: nat, tokenType: string)

  /** `allowedIps || [normalizedIp]`: only an absent list is defaulted; a supplied
      list, even an empty one, is kept as it is. */
  function ResolveScope(allowedIps: Option<seq<string>>, normalizedIp: string): (r: seq<string>)
    ensures allowedIps.Some? ==> r == allowedIps.value
    ensures allowedIps.None? ==> r == [normalizedIp]
  {
    allowedIps.GetOr([normalizedIp])
  }

  /** The two new token texts are distinct and were never signed before: the model's
      stand-in for the random `jti` each payload carries. */
  predicate FreshTexts(st: State, accessText: string, refreshText: string) {
    accessText != refreshText && accessText !in st.ledger && refreshText !in st.ledger
  }

  /** Every stored token was signed by the authority, for the row's own user. */
  predicate LedgerCovers(st: State) {
    forall i | 0 <= i < |st.store.rows| ::
      && st.store.rows[i].accessToken in st.ledger
      && st.store.rows[i].refreshToken in st.ledger
      && st.ledger[st.store.rows[i].accessToken].payload.claims.userId == st.store.rows[i].userId
      && st.ledger[st.store.rows[i].refreshToken].payload.claims.userId == st.store.rows[i].userId
  }

  /** The invariant the lifecycle keeps: table constraints, at most one live family per
      user, and every stored token backed by a signature for its user. */
  predicate Inv(st: State) {
    Valid(st.store) && AtMostOneLivePerUser(st.store.rows) && LedgerCovers(st)
  }

  function IssueClaims(userId: int, username: string, ip: string, scope: seq<string>, kind: TokenType): Claims {
    Claims(userId, username, ip, Some(scope), kind)
  }

  /** `createTokenPair`: sign an access and a refresh token over the same claims, revoke
      every earlier row of the user, then insert the new row. The revocation stands even
      when the insert is refused. */
  function CreateTokenPair(st: State, cfg: Config, now: nat, userId: int, username: string,
                           ipAddress: string, allowedIps: Option<seq<string>>,
                           accessText: string, refreshText: string)
    : (r: (State, Result<TokenPair, string>))
    requires FreshTexts(st, accessText, refreshText)
    ensures r.1.Success? ==> r.1.value == TokenPair(accessText, refreshText, ExpiresInSeconds, BearerType)
    ensures r.0.ledger.Keys == st.ledger.Keys + {accessText, refreshText}
    ensures forall t | t in st.ledger :: r.0.ledger[t] == st.ledger[t]
    ensures var scope := ResolveScope(allowedIps, IpUtils.NormalizeIp(ipAddress));
      && r.0.ledger[accessText] == Jwt(cfg.accessSecret, Decoded(
           IssueClaims(userId, username, IpUtils.NormalizeIp(ipAddress), scope, AccessType), now, now + AccessJwtTtl))
      && r.0.ledger[refreshText] == Jwt(cfg.refreshSecret, Decoded(
           IssueClaims(userId, username, IpUtils.NormalizeIp(ipAddress), scope, RefreshType), now, now + RefreshJwtTtl))
    ensures LedgerCovers(st) ==> r.1.Success?
  {
    var ip := IpUtils.NormalizeIp(ipAddress);
    var scope := ResolveScope(allowedIps, ip);
    var ledger1 := Sign(st.ledger, accessText, cfg.accessSecret,
                        IssueClaims(userId, username, ip, scope, AccessType), now, AccessJwtTtl);
    var ledger2 := Sign(ledger1, refreshText, cfg.refreshSecret,
                        IssueClaims(userId, username, ip, scope, RefreshType), now, RefreshJwtTtl);
    var revoked := RevokeAllUserTokens(st.store, userId).0;
    assert LedgerCovers(st) ==> !HoldsAccess(revoked, accessText) && !HoldsRefresh(revoked, refreshText) by {
      if LedgerCovers(st) {
        assert forall i | 0 <= i < |revoked.rows| ::
          revoked.rows[i].accessToken == st.store.rows[i].accessToken
          && revoked.rows[i].refreshToken == st.store.rows[i].refreshToken;
      }
    }
    match SaveTokens(revoked, userId, accessText, refreshText, ip, scope,
                     now + StoredAccessTtl, now + StoredRefreshTtl, now)
    case Failure(e) => (State(revoked, ledger2), Failure(e))
    case Success((store, _)) =>
      (State(store, ledger2), Success(TokenPair(accessText, refreshText, ExpiresInSeconds, BearerType)))
  }

  /** `verifyToken`: verification under the access secret; a failure message carries
      the `Ошибка верификации токена: ` prefix. */
  function VerifyToken(ledger: Ledger, cfg: Config, token: string, now: nat): (r: Result<Decoded, string>)
    ensures r.Success? <==> Verify(ledger, token, cfg.accessSecret, now).Success?
    ensures r.Success? ==> r.value == ledger[token].payload
    ensures r.Failure? ==> StartsWith(r.error, VerifyErrorPrefix)
  {
    match Verify(ledger, token, cfg.accessSecret, now)
    case Success(d) => Success(d)
    case Failure(e) =>
      assert (VerifyErrorPrefix + e)[..|VerifyErrorPrefix|] == VerifyErrorPrefix;
      Failure(VerifyErrorPrefix + e)
  }

  /** The `catch` of `refreshTokenPair`: a refusal leaves the state as it was, and the
      caller sees the refresh prefix followed by the original message. */
  function RefreshFailure(st: State, message: string): (r: (State, Result<TokenPair, string>))
    ensures r.0 == st && r.1.Failure? && StartsWith(r.1.error, RefreshErrorPrefix)
    ensures r.1.error[|RefreshErrorPrefix|..] == message
  {
    assert (RefreshErrorPrefix + message)[..|RefreshErrorPrefix|] == RefreshErrorPrefix;
    (st, Failure(RefreshErrorPrefix + message))
  }

  /** The four gates `refreshTokenPair` puts before reissuing, stated on the state:
      the token verifies under the refresh secret, its claims say `refresh`, a live row
      holds it, and the normalised address matches one of that row's entries. */
  predicate RefreshAdmitted(st: State, cfg: Config, now: nat, refreshToken: string, currentIp: string) {
    && refreshToken in st.ledger
    && st.ledger[refreshToken].secret == cfg.refreshSecret
    && now < st.ledger[refreshToken].payload.exp
    && st.ledger[refreshToken].payload.claims.tokenType == RefreshType
    && exists i | 0 <= i < |st.store.rows| ::
         && st.store.rows[i].refreshToken == refreshToken
         && !st.store.rows[i].revoked
         && exists k | 0 <= k < |st.store.rows[i].allowedIps| ::
              IpUtils.EntryMatches(st.store.rows[i].allowedIps[k], IpUtils.NormalizeIp(currentIp))
  }

  /** `refreshTokenPair`: verify, check the kind, look the token up among live rows,
      check the address against the row's list, then reissue for the claimed user with
      the row's list. Every failure carries the `Ошибка обновления токена: ` prefix. */
  function RefreshTokenPair(st: State, cfg: Config, now: nat, refreshToken: string, currentIp: string,
                            accessText: string, refreshText: string)
    : (r: (State, Result<TokenPair, string>))
    requires FreshTexts(st, accessText, refreshText)
    ensures r.1.Failure? ==> StartsWith(r.1.error, RefreshErrorPrefix)
    ensures r.0.ledger.Keys <= st.ledger.Keys + {accessText, refreshText}
    ensures Valid(st.store) && !RefreshAdmitted(st, cfg, now, refreshToken, currentIp) ==> r.0 == st && r.1.Failure?
    ensures Valid(st.store) && LedgerCovers(st) && RefreshAdmitted(st, cfg, now, refreshToken, currentIp) ==> r.1.Success?
  {
    match Verify(st.ledger, refreshToken, cfg.refreshSecret, now)
    case Failure(e) => RefreshFailure(st, e)
    case Success(decoded) =>
      if decoded.claims.tokenType != RefreshType then RefreshFailure(st, WrongTypeMessage)
      else
        match FindByRefreshToken(st.store, refreshToken)
        case None => RefreshFailure(st, RefreshNotFoundMessage)
        case Some(record) =>
          if !IpUtils.ScopeAdmits(record.allowedIps, IpUtils.NormalizeIp(currentIp)) then
            assert Valid(st.store) ==> !RefreshAdmitted(st, cfg, now, refreshToken, currentIp) by {
              RefreshRowUnique(st, refreshToken, record);
            }
            RefreshFailure(st, IpMismatchMessage)
          else
            var (st', res) := CreateTokenPair(st, cfg, now, decoded.claims.userId, decoded.claims.username,
                                              currentIp, Some(record.allowedIps), accessText, refreshText);
            match res
            case Success(pair) => (st', Success(pair))
            case Failure(e) => RefreshFailure(st', e)
  }

  /** Under the UNIQUE refresh column, the live row found for a token is the only row holding it. */
  lemma RefreshRowUnique(st: State, refreshToken: string, record: Row)
    requires FindByRefreshToken(st.store, refreshToken) == Some(record)
    ensures Valid(st.store) ==> forall i | 0 <= i < |st.store.rows| && st.store.rows[i].refreshToken == refreshToken ::
      st.store.rows[i] == record
  {
  }

  /** The outcome of `validateTokenWithIp`; it never throws. */
  datatype Validation = Validation(valid: bool, error: Option<string>, decoded: Option<Decoded>)

  function Rejected(message: string): Validation {
    Validation(false, Some(message), None)
  }

  /** The list the access token is checked against: its `allowedIps` claim, or its
      `ip` claim alone when that claim is absent. */
  function ClaimedScope(c: Claims): (r: seq<string>)
    ensures c.allowedIps.Some? ==> r == c.allowedIps.value
    ensures c.allowedIps.None? ==> r == [c.ip]
  {
    c.allowedIps.GetOr([c.ip])
  }

  /** The four checks of `validateTokenWithIp`, stated on the state: a live unexpired row
      holds the token, it verifies under the access secret, its claims say `access`, and
      the normalised address matches an entry of its claimed list. */
  predicate AccessAccepted(st: State, cfg: Config, now: nat, token: string, currentIp: string) {
    && (exists i | 0 <= i < |st.store.rows| :: IsLiveAccess(st.store.rows[i], token, now))
    && token in st.ledger
    && st.ledger[token].secret == cfg.accessSecret
    && now < st.ledger[token].payload.exp
    && st.ledger[token].payload.claims.tokenType == AccessType
    && exists k | 0 <= k < |ClaimedScope(st.ledger[token].payload.claims)| ::
         IpUtils.EntryMatches(ClaimedScope(st.ledger[token].payload.claims)[k], IpUtils.NormalizeIp(currentIp))
  }

  /** `validateTokenWithIp`: store liveness, then signature, then kind, then address.
      Valid exactly when all four pass; every failure has an error and no claims. */
  function ValidateTokenWithIp(st: State, cfg: Config, now: nat, token: string, currentIp: string): (r: Validation)
    ensures r.valid <==> AccessAccepted(st, cfg, now, token, currentIp)
    ensures r.valid ==> r.error.None? && r.decoded == Some(st.ledger[token].payload)
    ensures !r.valid ==> r.error.Some? && r.decoded.None?
    ensures !IsTokenValid(st.store, token, now) ==> r == Rejected(RevokedOrExpiredMessage)
  {
    if !IsTokenValid(st.store, token, now) then Rejected(RevokedOrExpiredMessage)
    else
      match VerifyToken(st.ledger, cfg, token, now)
      case Failure(e) => Rejected(e)
      case Success(decoded) =>
        if decoded.claims.tokenType != AccessType then Rejected(WrongTypeMessage)
        else if !IpUtils.ScopeAdmits(ClaimedScope(decoded.claims), IpUtils.NormalizeIp(currentIp)) then
          Rejected(IpMismatchMessage)
        else Validation(true, None, Some(decoded))
  }
}
