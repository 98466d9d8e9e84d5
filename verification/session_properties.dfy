/** What issuing and rotating do to the token table: one live family per user after
    every issuance, scope carried over on refresh, and rotation invalidating the old
    pair. */
module SessionProperties {
  import opened Results
  import opened Signer
  import opened TokenStore
  import opened Session
  import IpUtils
  import Wildcard
  import opened JsText

  /** After `createTokenPair` for a user, every earlier row of that user is revoked and
      the only live row of the user is the one just inserted, holding the new texts,
      the normalised address, the resolved list and the two stored expiries. Rows of
      other users are untouched, and no earlier row changes anything but its flag. */
  lemma IssueLeavesOneLiveRow(st: State, cfg: Config, now: nat, userId: int, username: string,
                              ipAddress: string, allowedIps: Option<seq<string>>,
                              accessText: string, refreshText: string)
    requires FreshTexts(st, accessText, refreshText)
    ensures var (st', res) := CreateTokenPair(st, cfg, now, userId, username, ipAddress, allowedIps, accessText, refreshText);
      var n := |st.store.rows|;
      && |st'.store.rows| == (if res.Success? then n + 1 else n)
      && (forall i | 0 <= i < n :: st'.store.rows[i].userId == userId ==> st'.store.rows[i].revoked)
      && (forall i | 0 <= i < n :: st.store.rows[i].userId != userId ==> st'.store.rows[i] == st.store.rows[i])
      && (forall i | 0 <= i < n :: st'.store.rows[i].(revoked := st.store.rows[i].revoked) == st.store.rows[i])
      && (res.Success? ==>
            var ip := IpUtils.NormalizeIp(ipAddress);
            st'.store.rows[n] == Row(st.store.nextId, userId, accessText, refreshText, ip,
                                     ResolveScope(allowedIps, ip), now + StoredAccessTtl,
                                     now + StoredRefreshTtl, false, now))
  {
  }

  /** The stored access expiry (15 minutes) comes strictly before the refresh expiry
      (7 days), and the response advertises 900 seconds of `Bearer` access. */
  lemma IssuedExpiries(st: State, cfg: Config, now: nat, userId: int, username: string,
                       ipAddress: string, allowedIps: Option<seq<string>>,
                       accessText: string, refreshText: string)
    requires FreshTexts(st, accessText, refreshText)
    requires LedgerCovers(st)
    ensures var (st', res) := CreateTokenPair(st, cfg, now, userId, username, ipAddress, allowedIps, accessText, refreshText);
      var row := st'.store.rows[|st.store.rows|];
      && row.expiresAt == now + 900 && row.refreshExpiresAt == now + 604800
      && row.expiresAt < row.refreshExpiresAt
      && res.value.expiresIn == 900 && res.value.tokenType == "Bearer"
  {
    IssueLeavesOneLiveRow(st, cfg, now, userId, username, ipAddress, allowedIps, accessText, refreshText);
  }

  /** The access and refresh claims of one issuance agree on user, name, address and
      list, and differ only in kind; they are signed with the two different secrets. */
  lemma IssuedClaimsAgree(st: State, cfg: Config, now: nat, userId: int, username: string,
                          ipAddress: string, allowedIps: Option<seq<string>>,
                          accessText: string, refreshText: string)
    requires FreshTexts(st, accessText, refreshText)
    ensures var ledger := CreateTokenPair(st, cfg, now, userId, username, ipAddress, allowedIps, accessText, refreshText).0.ledger;
      && ledger[accessText].secret == cfg.accessSecret
      && ledger[refreshText].secret == cfg.refreshSecret
      && ledger[accessText].payload.claims.tokenType == AccessType
      && ledger[refreshText].payload.claims.tokenType == RefreshType
      && ledger[refreshText].payload.claims == ledger[accessText].payload.claims.(tokenType := RefreshType)
      && ledger[accessText].payload.claims.ip == IpUtils.NormalizeIp(ipAddress)
      && ledger[accessText].payload.claims.allowedIps
           == Some(if allowedIps.Some? then allowedIps.value else [IpUtils.NormalizeIp(ipAddress)])
  {
  }

  /** Issuance preserves the lifecycle invariant. */
  lemma IssuePreservesInv(st: State, cfg: Config, now: nat, userId: int, username: string,
                          ipAddress: string, allowedIps: Option<seq<string>>,
                          accessText: string, refreshText: string)
    requires FreshTexts(st, accessText, refreshText) && Inv(st)
    ensures Inv(CreateTokenPair(st, cfg, now, userId, username, ipAddress, allowedIps, accessText, refreshText).0)
  {
    var st' := CreateTokenPair(st, cfg, now, userId, username, ipAddress, allowedIps, accessText, refreshText).0;
    var ip := IpUtils.NormalizeIp(ipAddress);
    RevokeThenSaveKeepsInvariants(st.store, userId, accessText, refreshText, ip, ResolveScope(allowedIps, ip),
                                  now + StoredAccessTtl, now + StoredRefreshTtl, now);
    IssueLeavesOneLiveRow(st, cfg, now, userId, username, ipAddress, allowedIps, accessText, refreshText);
    IssueKeepsLedgerCover(st, st', userId, accessText, refreshText);
  }

  /** The ledger still backs every row when the old rows keep their texts and users and
      the one possible new row holds the two texts just signed for its user. */
  lemma IssueKeepsLedgerCover(st: State, st': State, userId: int, accessText: string, refreshText: string)
    requires LedgerCovers(st)
    requires forall t | t in st.ledger :: t in st'.ledger && st'.ledger[t] == st.ledger[t]
    requires accessText in st'.ledger && st'.ledger[accessText].payload.claims.userId == userId
    requires refreshText in st'.ledger && st'.ledger[refreshText].payload.claims.userId == userId
    requires |st.store.rows| <= |st'.store.rows| <= |st.store.rows| + 1
    requires forall i | 0 <= i < |st.store.rows| ::
      st'.store.rows[i].(revoked := st.store.rows[i].revoked) == st.store.rows[i]
    requires |st'.store.rows| > |st.store.rows| ==>
      var row := st'.store.rows[|st.store.rows|];
      row.userId == userId && row.accessToken == accessText && row.refreshToken == refreshText
    ensures LedgerCovers(st')
  {
    var n := |st.store.rows|;
    forall i | 0 <= i < |st'.store.rows|
      ensures st'.store.rows[i].accessToken in st'.ledger && st'.store.rows[i].refreshToken in st'.ledger
      ensures st'.ledger[st'.store.rows[i].accessToken].payload.claims.userId == st'.store.rows[i].userId
      ensures st'.ledger[st'.store.rows[i].refreshToken].payload.claims.userId == st'.store.rows[i].userId
    {
      if i < n {
        assert st'.store.rows[i].(revoked := st.store.rows[i].revoked) == st.store.rows[i];
      }
    }
  }

  /** The four refusals of `refreshTokenPair`, in the order it checks them, each with its
      own message behind the common prefix, and each leaving the state untouched. */
  lemma RefreshFailureMessages(st: State, cfg: Config, now: nat, refreshToken: string, currentIp: string,
                               accessText: string, refreshText: string)
    requires FreshTexts(st, accessText, refreshText)
    ensures var r := RefreshTokenPair(st, cfg, now, refreshToken, currentIp, accessText, refreshText);
      var v := Verify(st.ledger, refreshToken, cfg.refreshSecret, now);
      var found := FindByRefreshToken(st.store, refreshToken);
      && (v.Failure? ==> r == (st, Failure(RefreshErrorPrefix + v.error)))
      && (v.Success? && v.value.claims.tokenType != RefreshType ==>
            r == (st, Failure(RefreshErrorPrefix + WrongTypeMessage)))
      && (v.Success? && v.value.claims.tokenType == RefreshType && found.None? ==>
            r == (st, Failure(RefreshErrorPrefix + RefreshNotFoundMessage)))
      && (v.Success? && v.value.claims.tokenType == RefreshType && found.Some?
          && !IpUtils.ScopeAdmits(found.value.allowedIps, IpUtils.NormalizeIp(currentIp)) ==>
            r == (st, Failure(RefreshErrorPrefix + IpMismatchMessage)))
  {
  }

  /** A successful refresh is an issuance for the user the token names, with the list of
      the live row that holds the token; that row belongs to the same user. */
  lemma RefreshIsReissue(st: State, cfg: Config, now: nat, refreshToken: string, currentIp: string,
                         accessText: string, refreshText: string)
    requires Inv(st) && FreshTexts(st, accessText, refreshText)
    requires RefreshAdmitted(st, cfg, now, refreshToken, currentIp)
    ensures RefreshTokenPair(st, cfg, now, refreshToken, currentIp, accessText, refreshText).1.Success?
    ensures refreshToken in st.ledger && FindByRefreshToken(st.store, refreshToken).Some?
    ensures var record := FindByRefreshToken(st.store, refreshToken).value;
      var claims := st.ledger[refreshToken].payload.claims;
      && record.userId == claims.userId
      && RefreshTokenPair(st, cfg, now, refreshToken, currentIp, accessText, refreshText)
         == CreateTokenPair(st, cfg, now, claims.userId, claims.username, currentIp, Some(record.allowedIps),
                            accessText, refreshText)
  {
    var record := FindByRefreshToken(st.store, refreshToken).value;
    var i :| 0 <= i < |st.store.rows| && st.store.rows[i] == record;
  }

  /** After a successful refresh every row holding the old access or refresh text is
      revoked: the row found for the token was the only one, and it belonged to the
      user being reissued for. */
  lemma RefreshRevokesFamily(st: State, cfg: Config, now: nat, refreshToken: string, currentIp: string,
                             accessText: string, refreshText: string)
    requires Inv(st) && FreshTexts(st, accessText, refreshText)
    requires RefreshAdmitted(st, cfg, now, refreshToken, currentIp)
    ensures FindByRefreshToken(st.store, refreshToken).Some?
    ensures var record := FindByRefreshToken(st.store, refreshToken).value;
      var st1 := RefreshTokenPair(st, cfg, now, refreshToken, currentIp, accessText, refreshText).0;
      forall j | 0 <= j < |st1.store.rows| ::
        st1.store.rows[j].accessToken == record.accessToken || st1.store.rows[j].refreshToken == refreshToken
        ==> st1.store.rows[j].revoked
  {
    RefreshIsReissue(st, cfg, now, refreshToken, currentIp, accessText, refreshText);
    var record := FindByRefreshToken(st.store, refreshToken).value;
    var claims := st.ledger[refreshToken].payload.claims;
    var st1 := CreateTokenPair(st, cfg, now, claims.userId, claims.username, currentIp, Some(record.allowedIps),
                               accessText, refreshText).0;
    IssueLeavesOneLiveRow(st, cfg, now, claims.userId, claims.username, currentIp, Some(record.allowedIps),
                          accessText, refreshText);
    var i :| 0 <= i < |st.store.rows| && st.store.rows[i] == record;
    assert record.accessToken in st.ledger && refreshToken in st.ledger;
    FamilyRowsRevoked(st.store.rows, st1.store.rows, i, claims.userId);
  }

  /** Store-level core of the above: when every row of the user is flagged and the rows
      appended after them hold other texts, every row sharing a text with row `i` is flagged. */
  lemma FamilyRowsRevoked(rows: seq<Row>, rows1: seq<Row>, i: nat, userId: int)
    requires Distinct(rows) && i < |rows| && rows[i].userId == userId && |rows| <= |rows1|
    requires forall j | 0 <= j < |rows| :: rows1[j].(revoked := rows[j].revoked) == rows[j]
    requires forall j | 0 <= j < |rows| :: rows1[j].userId == userId ==> rows1[j].revoked
    requires forall j | |rows| <= j < |rows1| ::
      rows1[j].accessToken != rows[i].accessToken && rows1[j].refreshToken != rows[i].refreshToken
    ensures forall j | 0 <= j < |rows1| ::
      rows1[j].accessToken == rows[i].accessToken || rows1[j].refreshToken == rows[i].refreshToken
      ==> rows1[j].revoked
  {
    forall j | 0 <= j < |rows| && (rows1[j].accessToken == rows[i].accessToken || rows1[j].refreshToken == rows[i].refreshToken)
      ensures rows1[j].revoked
    {
      assert rows1[j].(revoked := rows[j].revoked) == rows[j];
      assert Clash(rows[j], rows[i]);
    }
  }

  /** A successful refresh reissues for the row's user with the row's own list: the
      scope is carried over, not narrowed to the refreshing address. */
  lemma RefreshPreservesScope(st: State, cfg: Config, now: nat, refreshToken: string, currentIp: string,
                              accessText: string, refreshText: string)
    requires Inv(st) && FreshTexts(st, accessText, refreshText)
    requires RefreshAdmitted(st, cfg, now, refreshToken, currentIp)
    ensures FindByRefreshToken(st.store, refreshToken).Some?
    ensures var record := FindByRefreshToken(st.store, refreshToken).value;
      var st' := RefreshTokenPair(st, cfg, now, refreshToken, currentIp, accessText, refreshText).0;
      && |st'.store.rows| == |st.store.rows| + 1
      && st'.store.rows[|st.store.rows|].userId == record.userId
      && st'.store.rows[|st.store.rows|].allowedIps == record.allowedIps
      && !st'.store.rows[|st.store.rows|].revoked
      && st'.ledger[accessText].payload.claims.allowedIps == Some(record.allowedIps)
  {
    RefreshIsReissue(st, cfg, now, refreshToken, currentIp, accessText, refreshText);
    var record := FindByRefreshToken(st.store, refreshToken).value;
    var claims := st.ledger[refreshToken].payload.claims;
    IssueLeavesOneLiveRow(st, cfg, now, claims.userId, claims.username, currentIp, Some(record.allowedIps),
                          accessText, refreshText);
  }

  /** Refreshing preserves the lifecycle invariant. */
  lemma RefreshPreservesInv(st: State, cfg: Config, now: nat, refreshToken: string, currentIp: string,
                            accessText: string, refreshText: string)
    requires Inv(st) && FreshTexts(st, accessText, refreshText)
    ensures Inv(RefreshTokenPair(st, cfg, now, refreshToken, currentIp, accessText, refreshText).0)
  {
    if RefreshTokenPair(st, cfg, now, refreshToken, currentIp, accessText, refreshText).1.Success? {
      RefreshIsReissue(st, cfg, now, refreshToken, currentIp, accessText, refreshText);
      var record := FindByRefreshToken(st.store, refreshToken).value;
      var claims := st.ledger[refreshToken].payload.claims;
      IssuePreservesInv(st, cfg, now, claims.userId, claims.username, currentIp, Some(record.allowedIps),
                        accessText, refreshText);
    }
  }

  /** Rotation is single-use: once a refresh token has been exchanged no live row holds
      it, and presenting it again fails, at the lookup whenever it still verifies,
      leaving the state as it was. */
  lemma RefreshTokenSingleUse(st: State, cfg: Config, now: nat, refreshToken: string, currentIp: string,
                              accessText: string, refreshText: string,
                              later: nat, laterIp: string, accessText2: string, refreshText2: string)
    requires Inv(st) && FreshTexts(st, accessText, refreshText)
    requires RefreshAdmitted(st, cfg, now, refreshToken, currentIp)
    requires FreshTexts(st, accessText2, refreshText2)
    requires accessText2 !in {accessText, refreshText} && refreshText2 !in {accessText, refreshText}
    ensures var st1 := RefreshTokenPair(st, cfg, now, refreshToken, currentIp, accessText, refreshText).0;
      var (st2, res) := RefreshTokenPair(st1, cfg, later, refreshToken, laterIp, accessText2, refreshText2);
      && FindByRefreshToken(st1.store, refreshToken).None?
      && st2 == st1
      && res.Failure?
      && (Verify(st1.ledger, refreshToken, cfg.refreshSecret, later).Success? ==>
            res.error == RefreshErrorPrefix + RefreshNotFoundMessage)
  {
    RefreshRevokesFamily(st, cfg, now, refreshToken, currentIp, accessText, refreshText);
    RefreshPreservesInv(st, cfg, now, refreshToken, currentIp, accessText, refreshText);
    var st1 := RefreshTokenPair(st, cfg, now, refreshToken, currentIp, accessText, refreshText).0;
    assert FindByRefreshToken(st1.store, refreshToken).None?;
    assert !RefreshAdmitted(st1, cfg, later, refreshToken, laterIp);
  }

  /** Rotation revokes the whole family: the old access token is refused as revoked from
      then on, at any time and from any address, even before its own expiry. */
  lemma RefreshRevokesOldAccess(st: State, cfg: Config, now: nat, refreshToken: string, currentIp: string,
                                accessText: string, refreshText: string, later: nat, laterIp: string)
    requires Inv(st) && FreshTexts(st, accessText, refreshText)
    requires RefreshAdmitted(st, cfg, now, refreshToken, currentIp)
    ensures FindByRefreshToken(st.store, refreshToken).Some?
    ensures var oldAccess := FindByRefreshToken(st.store, refreshToken).value.accessToken;
      var st1 := RefreshTokenPair(st, cfg, now, refreshToken, currentIp, accessText, refreshText).0;
      ValidateTokenWithIp(st1, cfg, later, oldAccess, laterIp) == Rejected(RevokedOrExpiredMessage)
  {
    RefreshRevokesFamily(st, cfg, now, refreshToken, currentIp, accessText, refreshText);
    var oldAccess := FindByRefreshToken(st.store, refreshToken).value.accessToken;
    var st1 := RefreshTokenPair(st, cfg, now, refreshToken, currentIp, accessText, refreshText).0;
    assert !IsTokenValid(st1.store, oldAccess, later);
  }

  /** End to end: a pair issued without an explicit list validates from the issuing
      address (or any spelling that normalises to it) until the access JWT expires. */
  lemma IssuedAccessValidatesFromOrigin(st: State, cfg: Config, now: nat, userId: int, username: string,
                                        loginIp: string, accessText: string, refreshText: string,
                                        later: nat, clientIp: string)
    requires FreshTexts(st, accessText, refreshText)
    requires LedgerCovers(st)
    requires now <= later < now + AccessJwtTtl
    requires IpUtils.NormalizeIp(clientIp) == IpUtils.NormalizeIp(loginIp)
    ensures var st1 := CreateTokenPair(st, cfg, now, userId, username, loginIp, None, accessText, refreshText).0;
      ValidateTokenWithIp(st1, cfg, later, accessText, clientIp).valid
  {
    var st1 := CreateTokenPair(st, cfg, now, userId, username, loginIp, None, accessText, refreshText).0;
    IssueLeavesOneLiveRow(st, cfg, now, userId, username, loginIp, None, accessText, refreshText);
    assert IsLiveAccess(st1.store.rows[|st.store.rows|], accessText, later);
    var scope := ClaimedScope(st1.ledger[accessText].payload.claims);
    assert scope == [IpUtils.NormalizeIp(loginIp)];
    assert IpUtils.EntryMatches(scope[0], IpUtils.NormalizeIp(clientIp));
  }

  /** End to end: the same access token presented from an address that normalises to
      something else is refused for its address, when the issuing address holds no `*`. */
  lemma IssuedAccessRefusedElsewhere(st: State, cfg: Config, now: nat, userId: int, username: string,
                                     loginIp: string, accessText: string, refreshText: string,
                                     later: nat, clientIp: string)
    requires FreshTexts(st, accessText, refreshText)
    requires LedgerCovers(st)
    requires now <= later < now + AccessJwtTtl
    requires '*' !in IpUtils.NormalizeIp(loginIp)
    requires IpUtils.NormalizeIp(clientIp) != IpUtils.NormalizeIp(loginIp)
    ensures var st1 := CreateTokenPair(st, cfg, now, userId, username, loginIp, None, accessText, refreshText).0;
      ValidateTokenWithIp(st1, cfg, later, accessText, clientIp) == Rejected(IpMismatchMessage)
  {
    var st1 := CreateTokenPair(st, cfg, now, userId, username, loginIp, None, accessText, refreshText).0;
    IssueLeavesOneLiveRow(st, cfg, now, userId, username, loginIp, None, accessText, refreshText);
    assert IsLiveAccess(st1.store.rows[|st.store.rows|], accessText, later);
    var scope := ClaimedScope(st1.ledger[accessText].payload.claims);
    assert scope == [IpUtils.NormalizeIp(loginIp)];
    assert !IpUtils.ScopeAdmits(scope, IpUtils.NormalizeIp(clientIp));
  }

  /** A login whose client address reads `*` (a forged `X-Forwarded-For: *`) without an
      explicit list stores the scope `["*"]`, and its access token then validates from
      every address free of line terminators. */
  lemma StarAddressAdmitsEveryone(st: State, cfg: Config, now: nat, userId: int, username: string,
                                  accessText: string, refreshText: string, later: nat, clientIp: string)
    requires FreshTexts(st, accessText, refreshText)
    requires LedgerCovers(st)
    requires now <= later < now + AccessJwtTtl
    requires forall i | 0 <= i < |IpUtils.NormalizeIp(clientIp)| :: !Wildcard.IsLineTerminator(IpUtils.NormalizeIp(clientIp)[i])
    ensures var st1 := CreateTokenPair(st, cfg, now, userId, username, "*", None, accessText, refreshText).0;
      ValidateTokenWithIp(st1, cfg, later, accessText, clientIp).valid
  {
    var st1 := CreateTokenPair(st, cfg, now, userId, username, "*", None, accessText, refreshText).0;
    IssueLeavesOneLiveRow(st, cfg, now, userId, username, "*", None, accessText, refreshText);
    assert IsLiveAccess(st1.store.rows[|st.store.rows|], accessText, later);
    assert !StartsWith("*", IpUtils.MappedPrefix);
    assert IpUtils.NormalizeIp("*") == "*";
    var scope := ClaimedScope(st1.ledger[accessText].payload.claims);
    assert scope == ["*"];
    IpUtils.StarEntryAdmitsAll(IpUtils.NormalizeIp(clientIp));
    assert IpUtils.EntryMatches(scope[0], IpUtils.NormalizeIp(clientIp));
  }
}
