/** The authority as a state machine: every operation the service exposes over the
    token table, run in sequence from an empty table, keeps the lifecycle invariant. */
module Lifecycle {
  import opened Results
  import opened TokenStore
  import opened Session
  import SessionProperties

  /** One call into the authority. Issuing operations carry the two texts the signer
      produces for them. */
  datatype Op =
    | Login(userId: int, username: string, ipAddress: string, allowedIps: Option<seq<string>>,
            accessText: string, refreshText: string)
    | Refresh(refreshToken: string, currentIp: string, accessText: string, refreshText: string)
    | Logout(userId: int)
    | RevokeById(id: nat)
    | RevokeByRefresh(token: string)
    | Sweep

  datatype Event = Event(now: nat, op: Op)

  /** The state after one event; `None` when an issuing event reuses a text the signer
      has already produced, which a random `jti` rules out. */
  function Step(st: State, cfg: Config, e: Event): (r: Option<State>)
    ensures r.None? <==> (e.op.Login? || e.op.Refresh?) && !FreshTexts(st, e.op.accessText, e.op.refreshText)
    ensures r.Some? ==> r.value.ledger.Keys >= st.ledger.Keys
  {
    match e.op
    case Login(u, name, ip, scope, a, rt) =>
      if FreshTexts(st, a, rt) then Some(CreateTokenPair(st, cfg, e.now, u, name, ip, scope, a, rt).0) else None
    case Refresh(t, ip, a, rt) =>
      if FreshTexts(st, a, rt) then Some(RefreshTokenPair(st, cfg, e.now, t, ip, a, rt).0) else None
    case Logout(u) => Some(State(RevokeAllUserTokens(st.store, u).0, st.ledger))
    case RevokeById(id) => Some(State(RevokeToken(st.store, id).0, st.ledger))
    case RevokeByRefresh(t) => Some(State(RevokeByRefreshToken(st.store, t).0, st.ledger))
    case Sweep => Some(State(CleanupExpiredTokens(st.store, e.now).0, st.ledger))
  }

  function Run(st: State, cfg: Config, events: seq<Event>): Option<State>
    decreases |events|
  {
    if |events| == 0 then Some(st)
    else
      match Step(st, cfg, events[0])
      case None => None
      case Some(st') => Run(st', cfg, events[1..])
  }

  lemma InitialInv()
    ensures Inv(InitialState)
  {
  }

  /** A revocation that only sets flags keeps the invariant. */
  lemma FlagOnlyKeepsInv(st: State, store': Store)
    requires Inv(st)
    requires store'.nextId == st.store.nextId && |store'.rows| == |st.store.rows|
    requires forall i | 0 <= i < |st.store.rows| ::
      store'.rows[i].(revoked := st.store.rows[i].revoked) == st.store.rows[i]
      && (st.store.rows[i].revoked ==> store'.rows[i].revoked)
    ensures Inv(State(store', st.ledger))
  {
    var rows := st.store.rows;
    forall i | 0 <= i < |rows|
      ensures store'.rows[i].id == rows[i].id && store'.rows[i].userId == rows[i].userId
      ensures store'.rows[i].accessToken == rows[i].accessToken
      ensures store'.rows[i].refreshToken == rows[i].refreshToken
    {
      assert store'.rows[i].(revoked := rows[i].revoked) == rows[i];
    }
  }

  /** Deleting rows keeps the invariant. */
  lemma SweepKeepsInv(st: State, now: nat)
    requires Inv(st)
    ensures Inv(State(CleanupExpiredTokens(st.store, now).0, st.ledger))
  {
    var rows := CleanupExpiredTokens(st.store, now).0.rows;
    forall i | 0 <= i < |rows|
      ensures rows[i].accessToken in st.ledger && rows[i].refreshToken in st.ledger
      ensures st.ledger[rows[i].accessToken].payload.claims.userId == rows[i].userId
      ensures st.ledger[rows[i].refreshToken].payload.claims.userId == rows[i].userId
    {
      assert rows[i] in st.store.rows;
      var j :| 0 <= j < |st.store.rows| && st.store.rows[j] == rows[i];
    }
  }

  lemma StepPreservesInv(st: State, cfg: Config, e: Event)
    requires Inv(st)
    ensures Step(st, cfg, e).Some? ==> Inv(Step(st, cfg, e).value)
  {
    match e.op
    case Login(u, name, ip, scope, a, rt) =>
      if FreshTexts(st, a, rt) {
        SessionProperties.IssuePreservesInv(st, cfg, e.now, u, name, ip, scope, a, rt);
      }
    case Refresh(t, ip, a, rt) =>
      if FreshTexts(st, a, rt) {
        SessionProperties.RefreshPreservesInv(st, cfg, e.now, t, ip, a, rt);
      }
    case Logout(u) => FlagOnlyKeepsInv(st, RevokeAllUserTokens(st.store, u).0);
    case RevokeById(id) => FlagOnlyKeepsInv(st, RevokeToken(st.store, id).0);
    case RevokeByRefresh(t) => FlagOnlyKeepsInv(st, RevokeByRefreshToken(st.store, t).0);
    case Sweep => SweepKeepsInv(st, e.now);
  }

  lemma {:induction false} RunPreservesInv(st: State, cfg: Config, events: seq<Event>)
    requires Inv(st)
    ensures Run(st, cfg, events).Some? ==> Inv(Run(st, cfg, events).value)
    decreases |events|
  {
    if |events| > 0 {
      StepPreservesInv(st, cfg, events[0]);
      match Step(st, cfg, events[0])
      case None =>
      case Some(st') => RunPreservesInv(st', cfg, events[1..]);
    }
  }

  /** Whatever sequence of logins, refreshes, logouts, revocations and sweeps has run,
      no user holds two live sessions, and every stored token is one the authority
      signed for that row's user. */
  lemma OneLiveSessionPerUser(cfg: Config, events: seq<Event>)
    ensures Run(InitialState, cfg, events).Some? ==>
      var st := Run(InitialState, cfg, events).value;
      && Valid(st.store)
      && (forall i, j | 0 <= i < j < |st.store.rows| && st.store.rows[i].userId == st.store.rows[j].userId ::
            st.store.rows[i].revoked || st.store.rows[j].revoked)
      && LedgerCovers(st)
  {
    InitialInv();
    RunPreservesInv(InitialState, cfg, events);
  }
}
