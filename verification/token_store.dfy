/** The `tokens` table and the queries of `db/tokenRepository.js`, as pure transitions
    and queries over an immutable sequence of rows. Time is an abstract clock in
    seconds; `datetime('now')` becomes the parameter `now`. */
module TokenStore {
  import opened Results

  /** One row of `tokens`; the `allowed_ips` column is kept as the list it encodes. */
  datatype Row = Row(
    id: nat,
    userId: int,
    accessToken: string,
    refreshToken: string,
    ipAddress: string,
    allowedIps: seq<string>,
    expiresAt: nat,
    refreshExpiresAt: nat,
    revoked: bool,
    createdAt: nat)

  /** The table: its rows in insertion order and the next AUTOINCREMENT id. */
  datatype Store = Store(rows: seq<Row>, nextId: nat)

  /** A freshly created table; SQLite's AUTOINCREMENT hands out 1 first. */
  const EmptyStore := Store([], 1)

  const AccessUniqueViolation := "SQLITE_CONSTRAINT: UNIQUE constraint failed: tokens.access_token"
  const RefreshUniqueViolation := "SQLITE_CONSTRAINT: UNIQUE constraint failed: tokens.refresh_token"

  /** Two rows that a UNIQUE column or the primary key would not let coexist. */
  predicate Clash(a: Row, b: Row) {
    a.id == b.id || a.accessToken == b.accessToken || a.refreshToken == b.refreshToken
  }

  /** Pairwise distinct ids, access tokens and refresh tokens. */
  predicate Distinct(rows: seq<Row>) {
    forall i, j | 0 <= i < j < |rows| :: !Clash(rows[i], rows[j])
  }

  /** The table constraints: the primary key and both UNIQUE token columns, with every
      id below the next one AUTOINCREMENT will hand out. */
  predicate Valid(s: Store) {
    && Distinct(s.rows)
    && forall i | 0 <= i < |s.rows| :: s.rows[i].id < s.nextId
  }

  /** The single-live-family invariant: no user has two non-revoked rows. */
  predicate AtMostOneLivePerUser(rows: seq<Row>) {
    forall i, j | 0 <= i < j < |rows| ::
      rows[i].userId == rows[j].userId ==> rows[i].revoked || rows[j].revoked
  }

  predicate HoldsAccess(s: Store, t: string) {
    exists i | 0 <= i < |s.rows| :: s.rows[i].accessToken == t
  }

  predicate HoldsRefresh(s: Store, t: string) {
    exists i | 0 <= i < |s.rows| :: s.rows[i].refreshToken == t
  }

  /** `saveTokens`: an INSERT that the UNIQUE columns may refuse. On success it appends
      exactly one non-revoked row stamped with `now` and returns its new id. */
  function SaveTokens(s: Store, userId: int, accessToken: string, refreshToken: string, ipAddress: string,
                      allowedIps: seq<string>, expiresAt: nat, refreshExpiresAt: nat, now: nat)
    : (r: Result<(Store, nat), string>)
    ensures r.Success? <==> !HoldsAccess(s, accessToken) && !HoldsRefresh(s, refreshToken)
    ensures r.Failure? ==> r.error in {AccessUniqueViolation, RefreshUniqueViolation}
    ensures r.Success? ==>
      var (s', id) := r.value;
      && |s'.rows| == |s.rows| + 1
      && s'.rows[..|s.rows|] == s.rows
      && s'.rows[|s.rows|] == Row(id, userId, accessToken, refreshToken, ipAddress, allowedIps,
                                  expiresAt, refreshExpiresAt, false, now)
      && ((forall i | 0 <= i < |s.rows| :: s.rows[i].id < s.nextId) ==> (forall i | 0 <= i < |s.rows| :: s.rows[i].id != id))
    ensures r.Success? && Valid(s) ==> Valid(r.value.0)
  {
    if HoldsAccess(s, accessToken) then Failure(AccessUniqueViolation)
    else if HoldsRefresh(s, refreshToken) then Failure(RefreshUniqueViolation)
    else
      var row := Row(s.nextId, userId, accessToken, refreshToken, ipAddress, allowedIps,
                     expiresAt, refreshExpiresAt, false, now);
      var rows := s.rows + [row];
      assert rows[..|s.rows|] == s.rows;
      Success((Store(rows, s.nextId + 1), s.nextId))
  }

  datatype Column = AccessColumn | RefreshColumn

  function TokenIn(r: Row, c: Column): string {
    match c
    case AccessColumn => r.accessToken
    case RefreshColumn => r.refreshToken
  }

  /** `SELECT * FROM tokens WHERE <column> = ? AND is_revoked = 0`, first row found. */
  function FindLive(rows: seq<Row>, c: Column, t: string): (r: Option<Row>)
    ensures r.Some? ==> r.value in rows && TokenIn(r.value, c) == t && !r.value.revoked
    ensures r.None? ==> forall i | 0 <= i < |rows| :: TokenIn(rows[i], c) == t ==> rows[i].revoked
  {
    if |rows| == 0 then None
    else if TokenIn(rows[0], c) == t && !rows[0].revoked then Some(rows[0])
    else FindLive(rows[1..], c, t)
  }

  /** `findByAccessToken`: the live row holding this access token, if any. */
  function FindByAccessToken(s: Store, t: string): (r: Option<Row>)
    ensures r.Some? ==> r.value in s.rows && r.value.accessToken == t && !r.value.revoked
    ensures r.None? <==> forall i | 0 <= i < |s.rows| :: s.rows[i].accessToken == t ==> s.rows[i].revoked
  {
    FindLive(s.rows, AccessColumn, t)
  }

  /** `findByRefreshToken`: the live row holding this refresh token, if any. */
  function FindByRefreshToken(s: Store, t: string): (r: Option<Row>)
    ensures r.Some? ==> r.value in s.rows && r.value.refreshToken == t && !r.value.revoked
    ensures r.None? <==> forall i | 0 <= i < |s.rows| :: s.rows[i].refreshToken == t ==> s.rows[i].revoked
  {
    FindLive(s.rows, RefreshColumn, t)
  }

  /** The WHERE clauses of the three revoking UPDATE statements. */
  datatype Where = UserLive(userId: int) | IdIs(id: nat) | RefreshIs(token: string)

  predicate Selects(w: Where, r: Row) {
    match w
    case UserLive(u) => r.userId == u && !r.revoked
    case IdIs(id) => r.id == id
    case RefreshIs(t) => r.refreshToken == t
  }

  /** `UPDATE tokens SET is_revoked = 1 WHERE ...` and the number of rows it changed:
      the selected rows become revoked and every other row is left as it was. */
  function RevokeWhere(rows: seq<Row>, w: Where): (r: (seq<Row>, nat))
    ensures |r.0| == |rows|
    ensures forall i | 0 <= i < |rows| ::
      r.0[i] == (if Selects(w, rows[i]) then rows[i].(revoked := true) else rows[i])
    ensures r.1 == CountSelected(rows, w)
  {
    if |rows| == 0 then ([], 0)
    else
      var (tail, n) := RevokeWhere(rows[1..], w);
      if Selects(w, rows[0]) then ([rows[0].(revoked := true)] + tail, n + 1)
      else ([rows[0]] + tail, n)
  }

  /** The number of rows a WHERE clause selects, which SQLite reports as `changes`. */
  function CountSelected(rows: seq<Row>, w: Where): (n: nat)
    ensures n <= |rows|
    ensures n == 0 <==> forall i | 0 <= i < |rows| :: !Selects(w, rows[i])
  {
    if |rows| == 0 then 0
    else (if Selects(w, rows[0]) then 1 else 0) + CountSelected(rows[1..], w)
  }

  /** Revocation touches no id, token or user, so the table constraints survive it. */
  lemma RevokeWhereKeepsValid(s: Store, w: Where)
    requires Valid(s)
    ensures Valid(Store(RevokeWhere(s.rows, w).0, s.nextId))
  {
    var rows := RevokeWhere(s.rows, w).0;
    assert forall i | 0 <= i < |rows| ::
      rows[i].id == s.rows[i].id && rows[i].accessToken == s.rows[i].accessToken
      && rows[i].refreshToken == s.rows[i].refreshToken;
  }

  /** `revokeAllUserTokens`: afterwards the user has no live row, other users' rows are
      unchanged, and the result is the number of rows that were live. */
  function RevokeAllUserTokens(s: Store, userId: int): (r: (Store, nat))
    ensures r.0.nextId == s.nextId && |r.0.rows| == |s.rows|
    ensures forall i | 0 <= i < |s.rows| :: r.0.rows[i].userId == userId ==> r.0.rows[i].revoked
    ensures forall i | 0 <= i < |s.rows| :: s.rows[i].userId != userId ==> r.0.rows[i] == s.rows[i]
    ensures forall i | 0 <= i < |s.rows| :: r.0.rows[i].(revoked := s.rows[i].revoked) == s.rows[i]
    ensures r.1 == 0 <==> forall i | 0 <= i < |s.rows| :: s.rows[i].userId == userId ==> s.rows[i].revoked
    ensures Valid(s) ==> Valid(r.0)
  {
    var (rows, n) := RevokeWhere(s.rows, UserLive(userId));
    assert Valid(s) ==> Valid(Store(rows, s.nextId)) by {
      if Valid(s) { RevokeWhereKeepsValid(s, UserLive(userId)); }
    }
    (Store(rows, s.nextId), n)
  }

  /** A login's two writes, revoking the user's rows and then inserting the new one,
      keep the table constraints and leave the user with exactly one live row, the new
      one, whether or not the insert goes through. */
  lemma RevokeThenSaveKeepsInvariants(s: Store, userId: int, accessToken: string, refreshToken: string,
                                      ipAddress: string, allowedIps: seq<string>, expiresAt: nat,
                                      refreshExpiresAt: nat, now: nat)
    requires Valid(s) && AtMostOneLivePerUser(s.rows)
    ensures var s1 := RevokeAllUserTokens(s, userId).0;
      var res := SaveTokens(s1, userId, accessToken, refreshToken, ipAddress, allowedIps,
                            expiresAt, refreshExpiresAt, now);
      && Valid(s1) && AtMostOneLivePerUser(s1.rows)
      && (res.Success? ==> Valid(res.value.0) && AtMostOneLivePerUser(res.value.0.rows))
  {
    var s1 := RevokeAllUserTokens(s, userId).0;
    var res := SaveTokens(s1, userId, accessToken, refreshToken, ipAddress, allowedIps,
                          expiresAt, refreshExpiresAt, now);
    var n := |s.rows|;
    assert forall i | 0 <= i < n :: s1.rows[i].userId == s.rows[i].userId;
    forall i, j | 0 <= i < j < n && s1.rows[i].userId == s1.rows[j].userId
      ensures s1.rows[i].revoked || s1.rows[j].revoked
    {
      assert s.rows[i].userId == s.rows[j].userId;
    }
    if res.Success? {
      var rows := res.value.0.rows;
      assert rows[..n] == s1.rows;
      forall i, j | 0 <= i < j < |rows| && rows[i].userId == rows[j].userId
        ensures rows[i].revoked || rows[j].revoked
      {
        if j < n {
          assert rows[i] == s1.rows[i] && rows[j] == s1.rows[j];
        } else {
          assert rows[i] == s1.rows[i];
        }
      }
    }
  }

  /** Revoking a user's tokens twice changes nothing the second time. */
  lemma RevokeAllIdempotent(s: Store, userId: int)
    ensures var s1 := RevokeAllUserTokens(s, userId).0;
      RevokeAllUserTokens(s1, userId) == (s1, 0)
  {
    var s1 := RevokeAllUserTokens(s, userId).0;
    var s2 := RevokeAllUserTokens(s1, userId).0;
    assert s2.rows == s1.rows;
  }

  /** `revokeToken`: revokes the row(s) with this id and no other. */
  function RevokeToken(s: Store, id: nat): (r: (Store, nat))
    ensures r.0.nextId == s.nextId && |r.0.rows| == |s.rows|
    ensures forall i | 0 <= i < |s.rows| ::
      r.0.rows[i] == (if s.rows[i].id == id then s.rows[i].(revoked := true) else s.rows[i])
    ensures Valid(s) ==> r.1 <= 1
  {
    var (rows, n) := RevokeWhere(s.rows, IdIs(id));
    KeyedUpdateChangesAtMostOne(s, IdIs(id));
    (Store(rows, s.nextId), n)
  }

  /** `revokeByRefreshToken`: revokes the row(s) holding this refresh token and no other. */
  function RevokeByRefreshToken(s: Store, t: string): (r: (Store, nat))
    ensures r.0.nextId == s.nextId && |r.0.rows| == |s.rows|
    ensures forall i | 0 <= i < |s.rows| ::
      r.0.rows[i] == (if s.rows[i].refreshToken == t then s.rows[i].(revoked := true) else s.rows[i])
    ensures Valid(s) ==> r.1 <= 1
  {
    var (rows, n) := RevokeWhere(s.rows, RefreshIs(t));
    KeyedUpdateChangesAtMostOne(s, RefreshIs(t));
    (Store(rows, s.nextId), n)
  }

  /** An UPDATE that changed two or more rows selected two distinct rows. */
  lemma {:induction false} CountAtMostOne(rows: seq<Row>, w: Where)
    requires CountSelected(rows, w) > 1
    ensures exists i, j | 0 <= i < j < |rows| :: Selects(w, rows[i]) && Selects(w, rows[j])
  {
    var n := CountSelected(rows[1..], w);
    if Selects(w, rows[0]) {
      assert n > 0;
      var j :| 0 <= j < |rows[1..]| && Selects(w, rows[1..][j]);
      assert Selects(w, rows[0]) && Selects(w, rows[j + 1]);
    } else {
      CountAtMostOne(rows[1..], w);
      var i, j :| 0 <= i < j < |rows[1..]| && Selects(w, rows[1..][i]) && Selects(w, rows[1..][j]);
      assert Selects(w, rows[i + 1]) && Selects(w, rows[j + 1]);
    }
  }

  /** An UPDATE keyed by a unique column changes at most one row. */
  lemma KeyedUpdateChangesAtMostOne(s: Store, w: Where)
    requires !w.UserLive?
    ensures Valid(s) ==> RevokeWhere(s.rows, w).1 <= 1
  {
    if Valid(s) && CountSelected(s.rows, w) > 1 {
      CountAtMostOne(s.rows, w);
      assert false;
    }
  }

  /** The columns `getUserActiveTokens` selects. */
  datatype ActiveToken = ActiveToken(id: nat, ipAddress: string, allowedIps: seq<string>, expiresAt: nat, createdAt: nat)

  function Summary(r: Row): ActiveToken {
    ActiveToken(r.id, r.ipAddress, r.allowedIps, r.expiresAt, r.createdAt)
  }

  predicate IsActive(r: Row, userId: int, now: nat) {
    r.userId == userId && !r.revoked && r.expiresAt > now
  }

  /** The summaries of the user's active rows, in table order. */
  function ActiveSummaries(rows: seq<Row>, userId: int, now: nat): (r: seq<ActiveToken>)
    ensures forall x :: x in r <==> exists i | 0 <= i < |rows| :: IsActive(rows[i], userId, now) && Summary(rows[i]) == x
  {
    if |rows| == 0 then []
    else
      var tail := ActiveSummaries(rows[1..], userId, now);
      assert forall i | 1 <= i < |rows| :: rows[1..][i - 1] == rows[i];
      if IsActive(rows[0], userId, now) then [Summary(rows[0])] + tail else tail
  }

  predicate NewestFirst(ss: seq<ActiveToken>) {
    forall i, j | 0 <= i < j < |ss| :: ss[i].createdAt >= ss[j].createdAt
  }

  function InsertNewestFirst(x: ActiveToken, ss: seq<ActiveToken>): (r: seq<ActiveToken>)
    requires NewestFirst(ss)
    ensures NewestFirst(r)
    ensures multiset(r) == multiset(ss) + multiset{x}
  {
    if |ss| == 0 || x.createdAt >= ss[0].createdAt then [x] + ss
    else
      var tail := InsertNewestFirst(x, ss[1..]);
      assert ss == [ss[0]] + ss[1..];
      assert forall y | y in tail :: y.createdAt <= ss[0].createdAt by {
        forall y | y in tail ensures y.createdAt <= ss[0].createdAt {
          assert y in multiset(tail);
          if y != x {
            assert y in multiset(ss[1..]);
            var k :| 0 <= k < |ss[1..]| && ss[1..][k] == y;
            assert ss[k + 1] == y;
          }
        }
      }
      [ss[0]] + tail
  }

  /** `ORDER BY created_at DESC`: a permutation ordered newest first (rows with equal
      stamps may come in either order). */
  function SortNewestFirst(ss: seq<ActiveToken>): (r: seq<ActiveToken>)
    ensures NewestFirst(r)
    ensures multiset(r) == multiset(ss)
  {
    if |ss| == 0 then []
    else
      assert ss == [ss[0]] + ss[1..];
      InsertNewestFirst(ss[0], SortNewestFirst(ss[1..]))
  }

  /** `getUserActiveTokens`: exactly the summaries of the user's non-revoked rows whose
      access expiry lies after `now`, each as often as it occurs, newest first. */
  function GetUserActiveTokens(s: Store, userId: int, now: nat): (r: seq<ActiveToken>)
    ensures NewestFirst(r)
    ensures multiset(r) == multiset(ActiveSummaries(s.rows, userId, now))
    ensures forall x :: x in r <==> exists i | 0 <= i < |s.rows| :: IsActive(s.rows[i], userId, now) && Summary(s.rows[i]) == x
  {
    var a := ActiveSummaries(s.rows, userId, now);
    var r := SortNewestFirst(a);
    assert forall x :: x in r <==> x in multiset(r);
    assert forall x :: x in a <==> x in multiset(a);
    r
  }

  /** The rows the sweep keeps, in table order. */
  function KeepUnexpired(rows: seq<Row>, now: nat): (r: seq<Row>)
    ensures |r| <= |rows|
    ensures forall x :: x in r <==> x in rows && x.refreshExpiresAt >= now
  {
    if |rows| == 0 then []
    else
      var tail := KeepUnexpired(rows[1..], now);
      assert forall x | x in rows :: x == rows[0] || x in rows[1..];
      if rows[0].refreshExpiresAt >= now then [rows[0]] + tail else tail
  }

  predicate Pairwise(rows: seq<Row>, P: (Row, Row) -> bool) {
    forall i, j | 0 <= i < j < |rows| :: P(rows[i], rows[j])
  }

  /** The sweep keeps a subsequence, so any property every ordered pair of rows had
      still holds of every ordered pair it keeps. */
  lemma {:induction false} KeepUnexpiredPairwise(rows: seq<Row>, now: nat, P: (Row, Row) -> bool)
    requires Pairwise(rows, P)
    ensures Pairwise(KeepUnexpired(rows, now), P)
  {
    if |rows| > 0 {
      var tail := KeepUnexpired(rows[1..], now);
      assert Pairwise(rows[1..], P) by {
        forall i, j | 0 <= i < j < |rows[1..]| ensures P(rows[1..][i], rows[1..][j]) {
          assert rows[1..][i] == rows[i + 1] && rows[1..][j] == rows[j + 1];
        }
      }
      KeepUnexpiredPairwise(rows[1..], now, P);
      if rows[0].refreshExpiresAt >= now {
        var r := [rows[0]] + tail;
        assert r == KeepUnexpired(rows, now);
        forall i, j | 0 <= i < j < |r| ensures P(r[i], r[j]) {
          assert Pairwise(tail, P);
          if i == 0 {
            assert r[j] in tail;
            assert r[j] in rows[1..];
            var k :| 0 <= k < |rows[1..]| && rows[1..][k] == r[j];
            assert rows[k + 1] == r[j];
            assert P(rows[0], rows[k + 1]);
          } else {
            assert r[i] == tail[i - 1] && r[j] == tail[j - 1];
            assert P(tail[i - 1], tail[j - 1]);
          }
        }
      } else {
        assert tail == KeepUnexpired(rows, now);
      }
    }
  }

  /** The sweep keeps the table constraints and the single-live-family invariant. */
  lemma KeepUnexpiredKeepsInvariants(rows: seq<Row>, now: nat)
    ensures Distinct(rows) ==> Distinct(KeepUnexpired(rows, now))
    ensures AtMostOneLivePerUser(rows) ==> AtMostOneLivePerUser(KeepUnexpired(rows, now))
  {
    if Distinct(rows) {
      KeepUnexpiredPairwise(rows, now, (a, b) => !Clash(a, b));
    }
    if AtMostOneLivePerUser(rows) {
      KeepUnexpiredPairwise(rows, now, (a: Row, b: Row) => a.userId == b.userId ==> a.revoked || b.revoked);
    }
  }

  /** `cleanupExpiredTokens`: deletes exactly the rows whose refresh expiry is before
      `now`, keeps all others unchanged, and reports how many were deleted. */
  function CleanupExpiredTokens(s: Store, now: nat): (r: (Store, nat))
    ensures r.0.nextId == s.nextId
    ensures forall x :: x in r.0.rows <==> x in s.rows && x.refreshExpiresAt >= now
    ensures |r.0.rows| + r.1 == |s.rows|
    ensures Valid(s) ==> Valid(r.0)
    ensures AtMostOneLivePerUser(s.rows) ==> AtMostOneLivePerUser(r.0.rows)
  {
    var kept := KeepUnexpired(s.rows, now);
    KeepUnexpiredKeepsInvariants(s.rows, now);
    assert forall i | 0 <= i < |kept| :: kept[i] in s.rows;
    (Store(kept, s.nextId), |s.rows| - |kept|)
  }

  predicate IsLiveAccess(r: Row, t: string, now: nat) {
    r.accessToken == t && !r.revoked && r.expiresAt > now
  }

  /** `SELECT COUNT(*)` over the rows holding this access token, live and unexpired. */
  function CountLiveAccess(rows: seq<Row>, t: string, now: nat): (n: nat)
    ensures n <= |rows|
    ensures n == 0 <==> forall i | 0 <= i < |rows| :: !IsLiveAccess(rows[i], t, now)
  {
    if |rows| == 0 then 0
    else (if IsLiveAccess(rows[0], t, now) then 1 else 0) + CountLiveAccess(rows[1..], t, now)
  }

  /** `isTokenValid`: some row holds this access token, is not revoked, and its stored
      access expiry lies after `now`. */
  function IsTokenValid(s: Store, t: string, now: nat): (r: bool)
    ensures r <==> exists i | 0 <= i < |s.rows| :: IsLiveAccess(s.rows[i], t, now)
  {
    CountLiveAccess(s.rows, t, now) > 0
  }

  /** The list saved with a pair is the list a lookup reads back. */
  lemma SavedScopeReadBack(s: Store, userId: int, accessToken: string, refreshToken: string, ipAddress: string,
                           allowedIps: seq<string>, expiresAt: nat, refreshExpiresAt: nat, now: nat)
    requires SaveTokens(s, userId, accessToken, refreshToken, ipAddress, allowedIps, expiresAt, refreshExpiresAt, now).Success?
    ensures var s' := SaveTokens(s, userId, accessToken, refreshToken, ipAddress, allowedIps, expiresAt, refreshExpiresAt, now).value.0;
      && FindByAccessToken(s', accessToken).Some?
      && FindByAccessToken(s', accessToken).value.allowedIps == allowedIps
      && FindByRefreshToken(s', refreshToken).Some?
      && FindByRefreshToken(s', refreshToken).value.allowedIps == allowedIps
  {
    var s' := SaveTokens(s, userId, accessToken, refreshToken, ipAddress, allowedIps, expiresAt, refreshExpiresAt, now).value.0;
    var last := |s.rows|;
    assert s'.rows[last].accessToken == accessToken && !s'.rows[last].revoked;
    assert forall i | 0 <= i < |s'.rows| && s'.rows[i].accessToken == accessToken :: i == last by {
      forall i | 0 <= i < last ensures s'.rows[i].accessToken != accessToken {
        assert s'.rows[i] == s.rows[i];
      }
    }
    assert forall i | 0 <= i < |s'.rows| && s'.rows[i].refreshToken == refreshToken :: i == last by {
      forall i | 0 <= i < last ensures s'.rows[i].refreshToken != refreshToken {
        assert s'.rows[i] == s.rows[i];
      }
    }
  }
}
