/** Logins, MFA trades, logouts, delegations and their revocation, "log out everywhere" and
    deactivation as one timed state machine (`AuthController`, `DelegationService`, `JwtStrategy`,
    `JwtAuthGuard`, `MerchantService.setActive`).

    One request is one step, except that deactivation is two: the row is saved, then the tokens
    are revoked. `randomUUID` never repeats: token ids come from a counter. A signature cannot be
    forged: only issued tokens are presented. */
module Sessions {
  import opened Options
  import opened Revocation
  import Mfa

  const MFA_PENDING_TOKEN_TTL_SECONDS := 300
  const FULL_TOKEN_TTL_SECONDS := 3600

  /** The claims that matter here: `agent` is the role a delegation's token carries. */
  datatype Token = Token(merchant: MerchantId, jti: TokenId, iat: nat, exp: nat, mfaPending: bool, agent: bool)

  datatype Merchant = Merchant(active: bool, mfa: Mfa.State)

  /** A delegation row, kept under its token's id. `tokenExpiresAt` is in milliseconds, from the
      clock at creation; the token itself is signed a little later and expires on a whole second. */
  datatype Delegation = Delegation(merchant: MerchantId, tokenExpiresAt: nat, revoked: bool)

  datatype World = World(now: nat, store: Store, merchants: map<MerchantId, Merchant>,
                         issued: set<Token>, nextJti: TokenId, delegations: map<TokenId, Delegation>)

  // ----- checking a token --------------------------------------------------------------

  /** Passport's expiry check, then `JwtStrategy.validate`. */
  predicate Validates(w: World, t: Token) {
    && Seconds(w.now) < t.exp
    && t.merchant != ""
    && !IsTokenRevoked(w.store, w.now, t.jti)
    && !(t.iat != 0 && IsMerchantTokenRevoked(w.store, w.now, t.merchant, t.iat))
  }

  datatype Route = Public | Protected | MfaVerify

  /** `JwtAuthGuard.canActivate`, for the token presented, if any. */
  predicate CanActivate(w: World, route: Route, presented: Option<Token>) {
    || route.Public?
    || (&& presented.Some? && presented.value in w.issued && Validates(w, presented.value)
        && (presented.value.mfaPending ==> route.MfaVerify?))
  }

  // ----- steps ---------------------------------------------------------------------------

  datatype Event =
    | Tick(ms: nat)
    | Login(merchant: MerchantId, secretMatches: bool)
    | Trade(token: Token, code: string)                     // POST /auth/mfa/verify
    | Logout(token: Token)                                  // POST /auth/revoke
    | Enroll(token: Token, secret: string)
    | Confirm(token: Token, code: string, batch: Mfa.Batch)
    | Disable(token: Token, code: string)
    | Delegate(token: Token, ttlSeconds: nat, lag: nat)     // POST /delegations, `lag` from creation to signature
    | RevokeDelegation(actor: Option<Token>, jti: TokenId)     // POST /delegations/:id/revoke, None is an administrator
    | RevokeSessions(merchant: MerchantId)                  // also the second write of deactivation
    | Deactivate(merchant: MerchantId)                      // the first write
    | Reactivate(merchant: MerchantId)

  function Issue(w: World, merchant: MerchantId, ttlSeconds: nat, mfaPending: bool, agent: bool): World {
    var iat := Seconds(w.now);
    w.(issued := w.issued + {Token(merchant, w.nextJti, iat, iat + ttlSeconds, mfaPending, agent)},
       nextJti := w.nextJti + 1)
  }

  /** Revoke a token for what is left of its life. */
  function Kill(w: World, t: Token): World {
    w.(store := AfterRevoke(w.store, w.now, t.jti, t.exp - Seconds(w.now)))
  }

  /** The row takes its expiry from the clock, then, `lag` later, the token is signed. */
  function AfterDelegate(w: World, merchant: MerchantId, ttlSeconds: nat, lag: nat): World {
    var row := Delegation(merchant, w.now + ttlSeconds * 1000, false);
    Issue(w.(now := w.now + lag, delegations := w.delegations[w.nextJti := row]), merchant, ttlSeconds, false, true)
  }

  predicate OwnsDelegation(w: World, t: Token, jti: TokenId)
    requires jti in w.delegations
  {
    CanActivate(w, Protected, Some(t)) && !t.agent && t.merchant == w.delegations[jti].merchant
  }

  /** An administrator, or the merchant whose delegation it is, and not twice. */
  predicate MayRevoke(w: World, actor: Option<Token>, jti: TokenId) {
    && jti in w.delegations && !w.delegations[jti].revoked
    && (actor.None? || OwnsDelegation(w, actor.value, jti))
  }

  /** The row is marked, and the token revoked for the whole seconds left by the row. */
  function AfterRevokeDelegation(w: World, jti: TokenId): World
    requires jti in w.delegations
  {
    var row := w.delegations[jti];
    w.(delegations := w.delegations[jti := row.(revoked := true)],
       store := AfterRevoke(w.store, w.now, jti, (row.tokenExpiresAt - w.now) / 1000))
  }

  function WithMfa(w: World, merchant: MerchantId, s: Mfa.State): World
    requires merchant in w.merchants
  {
    w.(merchants := w.merchants[merchant := w.merchants[merchant].(mfa := s)])
  }

  /** The backup code is used up, the token presented is revoked, and a full one is issued. */
  function AfterTrade(w: World, t: Token, s: Mfa.State): World
    requires t.merchant in w.merchants
  {
    Issue(Kill(WithMfa(w, t.merchant, s), t), t.merchant, FULL_TOKEN_TTL_SECONDS, false, t.agent)
  }

  /** The outcome of one request. A request that is refused leaves the world as it was. */
  function Step(c: Mfa.Crypto, w: World, e: Event): World {
    match e
    case Tick(ms) => w.(now := w.now + ms)
    case Login(m, secretMatches) =>
      if m !in w.merchants || !w.merchants[m].active || !secretMatches then w
      else if w.merchants[m].mfa.enabled then Issue(w, m, MFA_PENDING_TOKEN_TTL_SECONDS, true, false)
      else Issue(w, m, FULL_TOKEN_TTL_SECONDS, false, false)
    case Trade(t, code) =>
      if !Trades(c, w, t, code) then w
      else AfterTrade(w, t, Mfa.Verify(c, w.merchants[t.merchant].mfa, code, w.now).1)
    case Logout(t) =>
      if !CanActivate(w, Protected, Some(t)) then w else Kill(w, t)
    case Enroll(t, secret) =>
      if !CanActivate(w, Protected, Some(t)) || t.merchant !in w.merchants then w
      else WithMfa(w, t.merchant, Mfa.Enroll(w.merchants[t.merchant].mfa, secret).1)
    case Confirm(t, code, batch) =>
      if !CanActivate(w, Protected, Some(t)) || t.merchant !in w.merchants then w
      else WithMfa(w, t.merchant, Mfa.Confirm(c, w.merchants[t.merchant].mfa, code, w.now, batch).1)
    case Disable(t, code) =>
      if !CanActivate(w, Protected, Some(t)) || t.merchant !in w.merchants then w
      else WithMfa(w, t.merchant, Mfa.Disable(c, w.merchants[t.merchant].mfa, code, w.now).1)
    case Delegate(t, ttl, lag) =>
      if !CanActivate(w, Protected, Some(t)) || t.agent then w else AfterDelegate(w, t.merchant, ttl, lag)
    case RevokeDelegation(actor, jti) =>
      if !MayRevoke(w, actor, jti) then w else AfterRevokeDelegation(w, jti)
    case RevokeSessions(m) =>
      if m !in w.merchants then w else w.(store := AfterRevokeAll(w.store, w.now, m))
    case Deactivate(m) =>
      if m !in w.merchants then w else w.(merchants := w.merchants[m := w.merchants[m].(active := false)])
    case Reactivate(m) =>
      if m !in w.merchants then w else w.(merchants := w.merchants[m := w.merchants[m].(active := true)])
  }

  /** The verify request succeeds: the guard lets the token through and the code is accepted. */
  predicate Trades(c: Mfa.Crypto, w: World, t: Token, code: string) {
    && CanActivate(w, MfaVerify, Some(t))
    && t.merchant in w.merchants
    && Mfa.Verify(c, w.merchants[t.merchant].mfa, code, w.now).0.Done?
  }

  function Run(c: Mfa.Crypto, w: World, es: seq<Event>): World
    decreases |es|
  {
    if es == [] then w else Run(c, Step(c, w, es[0]), es[1..])
  }

  // ----- who is let through, in plain terms --------------------------------------------------

  /** A token is let through exactly if it was issued, has not expired, names a merchant, and neither its own
      key nor its merchant's marker is in force; a pending one only where it can be traded. */
  lemma GuardIff(w: World, t: Token)
    ensures CanActivate(w, MfaVerify, Some(t))
       <==> && t in w.issued && w.now < t.exp * 1000 && t.merchant != ""
            && !(t.jti in w.store.tokens && w.now < w.store.tokens[t.jti])
            && !(&& t.iat != 0 && t.merchant in w.store.markers && w.now < w.store.markers[t.merchant].expiresAt
                 && t.iat <= w.store.markers[t.merchant].second)
    ensures CanActivate(w, Protected, Some(t)) <==> CanActivate(w, MfaVerify, Some(t)) && !t.mfaPending
    ensures !CanActivate(w, Protected, None) && !CanActivate(w, MfaVerify, None) && CanActivate(w, Public, None)
  {
  }

  /** A request with a token that is not let through changes nothing. */
  lemma RefusedChangesNothing(c: Mfa.Crypto, w: World, e: Event)
    requires e.Trade? || e.Logout? || e.Enroll? || e.Confirm? || e.Disable? || e.Delegate?
    requires e.token !in w.issued || !Validates(w, e.token)
    ensures Step(c, w, e) == w
  {
  }

  /** The verify request succeeds exactly if the token is let through and the code is a valid TOTP code or
      matches a backup hash that is left. */
  lemma TradesIff(c: Mfa.Crypto, w: World, t: Token, code: string)
    ensures Trades(c, w, t, code)
       <==> && CanActivate(w, MfaVerify, Some(t)) && t.merchant in w.merchants
            && var s := w.merchants[t.merchant].mfa;
               && s.enabled && s.secret.Some?
               && (c.validTotp(s.secret.value, code, w.now) || exists h :: h in s.hashes && c.compare(code, h))
  {
    if t.merchant in w.merchants { Mfa.VerifyIff(c, w.merchants[t.merchant].mfa, code, w.now); }
  }

  /** A full session of a merchant that is not an agent's delegates whenever it asks to. */
  lemma DelegateIssues(c: Mfa.Crypto, w: World, t: Token, ttl: nat, lag: nat)
    requires CanActivate(w, Protected, Some(t)) && !t.agent
    ensures var w', iat := Step(c, w, Delegate(t, ttl, lag)), (w.now + lag) / 1000;
            && w'.now == w.now + lag
            && w'.issued == w.issued + {Token(t.merchant, w.nextJti, iat, iat + ttl, false, true)}
            && w'.delegations == w.delegations[w.nextJti := Delegation(t.merchant, w.now + ttl * 1000, false)]
  {
  }

  /** A step switches a merchant's MFA on only by confirming with a valid TOTP code of the stored secret, and
      off only by a code that is accepted. */
  lemma SwitchedByACode(c: Mfa.Crypto, w: World, e: Event, m: MerchantId)
    requires m in w.merchants && m in Step(c, w, e).merchants
    ensures !w.merchants[m].mfa.enabled && Step(c, w, e).merchants[m].mfa.enabled ==>
              && e.Confirm? && e.token.merchant == m && CanActivate(w, Protected, Some(e.token))
              && w.merchants[m].mfa.secret.Some?
              && c.validTotp(w.merchants[m].mfa.secret.value, e.code, w.now)
    ensures w.merchants[m].mfa.enabled && !Step(c, w, e).merchants[m].mfa.enabled ==>
              && e.Disable? && e.token.merchant == m && CanActivate(w, Protected, Some(e.token))
              && var s := w.merchants[m].mfa;
                 && s.secret.Some?
                 && (c.validTotp(s.secret.value, e.code, w.now) || exists h :: h in s.hashes && c.compare(e.code, h))
  {
    match e
    case Trade(t, code) => if t.merchant in w.merchants { Mfa.VerifyIff(c, w.merchants[t.merchant].mfa, code, w.now); }
    case Disable(t, code) =>
      if t.merchant in w.merchants {
        Mfa.VerifyIff(c, w.merchants[t.merchant].mfa, code, w.now);
        Mfa.DisableIff(c, w.merchants[t.merchant].mfa, code, w.now);
      }
    case _ =>
  }

  /** A successful verify request leaves the hashes as they are if the code is a valid TOTP code, and otherwise
      uses up the first hash the code matches. */
  lemma TradeUsesUpTheCode(c: Mfa.Crypto, w: World, t: Token, code: string) returns (i: nat)
    requires Trades(c, w, t, code)
    ensures Step(c, w, Trade(t, code)).merchants.Keys == w.merchants.Keys
    ensures var row, row' := w.merchants[t.merchant], Step(c, w, Trade(t, code)).merchants[t.merchant];
            && row' == row.(mfa := Mfa.State(true, row.mfa.secret, row'.mfa.hashes))
            && if c.validTotp(row.mfa.secret.value, code, w.now) then row' == row
               else && i < |row.mfa.hashes| && c.compare(code, row.mfa.hashes[i])
                    && (forall k | 0 <= k < i :: !c.compare(code, row.mfa.hashes[k]))
                    && row'.mfa.hashes == row.mfa.hashes[..i] + row.mfa.hashes[i + 1..]
  {
    i := Mfa.FirstMatch(c, code, w.merchants[t.merchant].mfa.hashes, 0);
  }

  /** The three MFA requests of a session that is let through, on its merchant's columns; no other merchant's
      row changes. */
  lemma MfaRequestsAre(c: Mfa.Crypto, w: World, t: Token, secret: string, code: string, batch: Mfa.Batch)
    requires CanActivate(w, Protected, Some(t)) && t.merchant in w.merchants
    ensures var row := w.merchants[t.merchant];
            var s := row.mfa;
            var valid := s.secret.Some? && c.validTotp(s.secret.value, code, w.now);
            var accepted := s.enabled && s.secret.Some? && (valid || exists h :: h in s.hashes && c.compare(code, h));
            && Step(c, w, Enroll(t, secret)).merchants == w.merchants[t.merchant :=
                 if s.enabled then row else row.(mfa := Mfa.State(false, Some(secret), s.hashes))]
            && Step(c, w, Confirm(t, code, batch)).merchants == w.merchants[t.merchant :=
                 if valid then row.(mfa := Mfa.State(true, s.secret, Mfa.Hashes(c, batch))) else row]
            && Step(c, w, Disable(t, code)).merchants == w.merchants[t.merchant :=
                 if accepted then row.(mfa := Mfa.State(false, None, [])) else row]
  {
    Mfa.DisableIff(c, w.merchants[t.merchant].mfa, code, w.now);
  }

  // ----- what every run keeps -----------------------------------------------------------

  /** Token ids are unique and below the counter, tokens were issued in the past, a delegation's
      row and token belong together, a token's key lasts as long as the token unless its delegation
      was revoked, and no marker is from the future or outlives one written now. */
  ghost predicate WellFormed(w: World) {
    && IdsFit(w.issued, w.nextJti, Seconds(w.now))
    && RowsFit(w.delegations, w.issued, w.nextJti)
    && KeysFit(w.store, w.issued, w.nextJti, w.delegations)
    && MarkersFit(w.store, w.now)
  }

  ghost predicate IdsFit(issued: set<Token>, nextJti: TokenId, second: nat) {
    && (forall t | t in issued :: t.jti < nextJti && t.iat <= second)
    && (forall t, u | t in issued && u in issued && t.jti == u.jti :: t == u)
  }

  /** The row of a delegation expires within the second of its token, or before. */
  ghost predicate RowsFit(rows: map<TokenId, Delegation>, issued: set<Token>, nextJti: TokenId) {
    && (forall j | j in rows :: j < nextJti)
    && (forall t | t in issued && t.jti in rows ::
          t.agent && t.merchant == rows[t.jti].merchant && rows[t.jti].tokenExpiresAt < (t.exp + 1) * 1000)
  }

  ghost predicate RowRevoked(rows: map<TokenId, Delegation>, j: TokenId) { j in rows && rows[j].revoked }

  ghost predicate KeysFit(s: Store, issued: set<Token>, nextJti: TokenId, rows: map<TokenId, Delegation>) {
    && (forall j | j in s.tokens :: j < nextJti)
    && (forall t | t in issued && t.jti in s.tokens && !RowRevoked(rows, t.jti) :: t.exp * 1000 <= s.tokens[t.jti])
  }

  ghost predicate MarkersFit(s: Store, now: nat) {
    forall m | m in s.markers ::
      s.markers[m].second <= Seconds(now) && s.markers[m].expiresAt <= now + MERCHANT_REVOCATION_TTL_SECONDS * 1000
  }

  lemma StepGrows(c: Mfa.Crypto, w: World, e: Event)
    ensures w.issued <= Step(c, w, e).issued && w.now <= Step(c, w, e).now
  {
  }

  lemma StepWellFormed(c: Mfa.Crypto, w: World, e: Event)
    requires WellFormed(w)
    ensures WellFormed(Step(c, w, e))
    ensures w.issued <= Step(c, w, e).issued && w.now <= Step(c, w, e).now
  {
    StepGrows(c, w, e);
    if e.Login? || e.Trade? || e.Delegate? {
      IssuingIsWellFormed(c, w, e);
    } else if e.Logout? || e.RevokeDelegation? || e.RevokeSessions? || e.Tick? {
      RevokingIsWellFormed(c, w, e);
    } else {
      RowsOnly(c, w, e);
      RowsWellFormed(w, Step(c, w, e).merchants);
    }
  }

  lemma IssuingIsWellFormed(c: Mfa.Crypto, w: World, e: Event)
    requires WellFormed(w) && (e.Login? || e.Trade? || e.Delegate?)
    ensures WellFormed(Step(c, w, e))
  {
    match e
    case Trade(t, code) =>
      if Trades(c, w, t, code) {
        TradeWellFormed(w, t, Mfa.Verify(c, w.merchants[t.merchant].mfa, code, w.now).1);
      }
    case Login(m, _) =>
      IssueWellFormed(w, m, MFA_PENDING_TOKEN_TTL_SECONDS, true, false);
      IssueWellFormed(w, m, FULL_TOKEN_TTL_SECONDS, false, false);
    case Delegate(t, ttl, lag) => DelegateWellFormed(w, t.merchant, ttl, lag);
  }

  lemma RevokingIsWellFormed(c: Mfa.Crypto, w: World, e: Event)
    requires WellFormed(w) && (e.Logout? || e.RevokeDelegation? || e.RevokeSessions? || e.Tick?)
    ensures WellFormed(Step(c, w, e))
  {
    match e
    case Logout(t) => if CanActivate(w, Protected, Some(t)) { KillWellFormed(w, t); }
    case RevokeDelegation(actor, jti) => if MayRevoke(w, actor, jti) { RevokeDelegationWellFormed(w, jti); }
    case RevokeSessions(m) => MarkWellFormed(w, m);
    case Tick(ms) => TickWellFormed(w, ms);
  }

  /** The remaining requests change merchant rows and nothing else. */
  lemma RowsOnly(c: Mfa.Crypto, w: World, e: Event)
    requires e.Enroll? || e.Confirm? || e.Disable? || e.Deactivate? || e.Reactivate?
    ensures Step(c, w, e) == w.(merchants := Step(c, w, e).merchants)
  {
  }

  lemma TradeWellFormed(w: World, t: Token, s: Mfa.State)
    requires WellFormed(w) && t in w.issued && t.merchant in w.merchants
    ensures WellFormed(AfterTrade(w, t, s))
  {
    RowsWellFormed(w, WithMfa(w, t.merchant, s).merchants);
    KillWellFormed(WithMfa(w, t.merchant, s), t);
    IssueWellFormed(Kill(WithMfa(w, t.merchant, s), t), t.merchant, FULL_TOKEN_TTL_SECONDS, false, t.agent);
  }

  lemma MarkWellFormed(w: World, m: MerchantId)
    requires WellFormed(w)
    ensures WellFormed(w.(store := AfterRevokeAll(w.store, w.now, m)))
  {
  }

  lemma TickWellFormed(w: World, ms: nat)
    requires WellFormed(w)
    ensures WellFormed(w.(now := w.now + ms))
  {
  }

  lemma RowsWellFormed(w: World, rows: map<MerchantId, Merchant>)
    requires WellFormed(w)
    ensures WellFormed(w.(merchants := rows))
  {
  }

  lemma IssueWellFormed(w: World, m: MerchantId, ttl: nat, pending: bool, agent: bool)
    requires WellFormed(w)
    ensures WellFormed(Issue(w, m, ttl, pending, agent))
  {
  }

  lemma DelegateWellFormed(w: World, m: MerchantId, ttl: nat, lag: nat)
    requires WellFormed(w)
    ensures WellFormed(AfterDelegate(w, m, ttl, lag))
  {
    var w' := AfterDelegate(w, m, ttl, lag);
    assert IdsFit(w'.issued, w'.nextJti, Seconds(w'.now));
    assert RowsFit(w'.delegations, w'.issued, w'.nextJti) by {
      assert w.now < (Seconds(w.now + lag) + 1) * 1000;
    }
    assert KeysFit(w'.store, w'.issued, w'.nextJti, w'.delegations);
  }

  lemma RevokeDelegationWellFormed(w: World, jti: TokenId)
    requires WellFormed(w) && jti in w.delegations
    ensures WellFormed(AfterRevokeDelegation(w, jti))
  {
    var w' := AfterRevokeDelegation(w, jti);
    assert RowsFit(w'.delegations, w'.issued, w'.nextJti);
    assert KeysFit(w'.store, w'.issued, w'.nextJti, w'.delegations);
  }

  lemma KillWellFormed(w: World, t: Token)
    requires WellFormed(w) && t in w.issued
    ensures WellFormed(Kill(w, t))
  {
    assert Seconds(w.now) * 1000 <= w.now;
  }

  lemma {:induction false} RunWellFormed(c: Mfa.Crypto, w: World, es: seq<Event>)
    requires WellFormed(w)
    ensures WellFormed(Run(c, w, es))
    ensures w.issued <= Run(c, w, es).issued && w.now <= Run(c, w, es).now
    decreases |es|
  {
    if es != [] {
      StepWellFormed(c, w, es[0]);
      RunWellFormed(c, Step(c, w, es[0]), es[1..]);
    }
  }

  // ----- dead tokens ---------------------------------------------------------------------

  /** The token is revoked by a key that lasts at least as long as the token would. */
  ghost predicate KeyLasts(w: World, t: Token) {
    t.jti in w.store.tokens && t.exp * 1000 <= w.store.tokens[t.jti]
  }

  ghost predicate MarkerLasts(w: World, t: Token) {
    && t.iat != 0 && t.merchant in w.store.markers
    && t.iat <= w.store.markers[t.merchant].second
    && t.exp * 1000 <= w.store.markers[t.merchant].expiresAt
  }

  /** The token is one of a delegation that can still be revoked. */
  ghost predicate Revocable(w: World, t: Token) {
    t.jti in w.delegations && !w.delegations[t.jti].revoked
  }

  /** Revoking a delegation at this time revokes its token for good. */
  predicate Reaches(now: nat, tokenExpiresAt: nat, exp: nat) {
    exp * 1000 <= tokenExpiresAt && now % 1000 <= tokenExpiresAt % 1000
  }

  /** At this time or later, revoking the delegation replaces the token's key by one that does not
      reach its expiry. */
  predicate CanFallShort(now: nat, tokenExpiresAt: nat, exp: nat) {
    if exp * 1000 <= tokenExpiresAt then tokenExpiresAt % 1000 < 999 && now < (exp - 1) * 1000
    else now + 1000 <= tokenExpiresAt
  }

  ghost predicate CanBeShortened(w: World, t: Token) {
    Revocable(w, t) && CanFallShort(w.now, w.delegations[t.jti].tokenExpiresAt, t.exp)
  }

  /** Expired, or revoked until it is. */
  ghost predicate Dead(w: World, t: Token) {
    t.exp * 1000 <= w.now || (KeyLasts(w, t) && !CanBeShortened(w, t)) || MarkerLasts(w, t)
  }

  /** The end of the key that revoking a delegation writes, if it writes one. */
  function KeyEnd(now: nat, tokenExpiresAt: nat): int {
    now + (tokenExpiresAt - now) / 1000 * 1000
  }

  lemma KeyEndIs(now: nat, tokenExpiresAt: nat)
    ensures KeyEnd(now, tokenExpiresAt) == tokenExpiresAt - (tokenExpiresAt - now) % 1000
  {
  }

  /** The key reaches the token's expiry exactly if the clock is not further into its second than
      it was at creation, and the token was signed within the second of its creation. */
  lemma ReachesIff(now: nat, tokenExpiresAt: nat, exp: nat)
    requires now < exp * 1000 && tokenExpiresAt < (exp + 1) * 1000
    ensures Reaches(now, tokenExpiresAt, exp)
       <==> now + 1000 <= tokenExpiresAt && exp * 1000 <= KeyEnd(now, tokenExpiresAt)
  {
    KeyEndIs(now, tokenExpiresAt);
  }

  lemma NeverFallsShort(now: nat, tokenExpiresAt: nat, exp: nat)
    requires now < exp * 1000 && tokenExpiresAt < (exp + 1) * 1000
    requires !CanFallShort(now, tokenExpiresAt, exp) && now + 1000 <= tokenExpiresAt
    ensures exp * 1000 <= KeyEnd(now, tokenExpiresAt)
  {
    KeyEndIs(now, tokenExpiresAt);
  }

  /** A time at which it does, when there is one. */
  lemma FallsShort(now: nat, tokenExpiresAt: nat, exp: nat) returns (at: nat)
    requires CanFallShort(now, tokenExpiresAt, exp) && tokenExpiresAt < (exp + 1) * 1000
    ensures now <= at && at + 1000 <= tokenExpiresAt && KeyEnd(at, tokenExpiresAt) < exp * 1000
  {
    at := if exp * 1000 <= tokenExpiresAt then (exp - 2) * 1000 + 999 else now;
    KeyEndIs(at, tokenExpiresAt);
  }

  lemma DeadDoesNotValidate(w: World, t: Token)
    requires Dead(w, t)
    ensures !Validates(w, t)
  {
  }

  lemma KeyLastsStep(c: Mfa.Crypto, w: World, e: Event, t: Token)
    requires WellFormed(w) && t in w.issued && w.now < t.exp * 1000
    requires KeyLasts(w, t) && !CanBeShortened(w, t)
    ensures KeyLasts(Step(c, w, e), t) && !CanBeShortened(Step(c, w, e), t)
  {
    if e.RevokeDelegation? && MayRevoke(w, e.actor, e.jti) && e.jti == t.jti {
      var row := w.delegations[t.jti];
      if w.now + 1000 <= row.tokenExpiresAt { NeverFallsShort(w.now, row.tokenExpiresAt, t.exp); }
    }
  }

  lemma MarkerLastsStep(c: Mfa.Crypto, w: World, e: Event, t: Token)
    requires WellFormed(w) && MarkerLasts(w, t)
    ensures MarkerLasts(Step(c, w, e), t)
  {
  }

  /** No step brings a dead token back. */
  lemma DeadStaysDead(c: Mfa.Crypto, w: World, e: Event, t: Token)
    requires WellFormed(w) && t in w.issued && Dead(w, t)
    ensures Dead(Step(c, w, e), t)
  {
    StepWellFormed(c, w, e);
    if MarkerLasts(w, t) {
      MarkerLastsStep(c, w, e, t);
    } else if w.now < t.exp * 1000 {
      KeyLastsStep(c, w, e, t);
    }
  }

  lemma {:induction false} DeadForever(c: Mfa.Crypto, w: World, es: seq<Event>, t: Token)
    requires WellFormed(w) && t in w.issued && Dead(w, t)
    ensures Dead(Run(c, w, es), t) && !Validates(Run(c, w, es), t)
    decreases |es|
  {
    if es == [] {
      DeadDoesNotValidate(w, t);
    } else {
      StepWellFormed(c, w, es[0]);
      DeadStaysDead(c, w, es[0], t);
      DeadForever(c, Step(c, w, es[0]), es[1..], t);
    }
  }

  /** The clock reaches a time before the token's expiry at which all its keys have lapsed. */
  lemma LapsesBeforeExpiry(w: World, t: Token) returns (ms: nat)
    requires t.merchant != "" && w.now < t.exp * 1000 && !KeyLasts(w, t) && !MarkerLasts(w, t)
    ensures Validates(w.(now := w.now + ms), t)
  {
    var key := if t.jti in w.store.tokens then w.store.tokens[t.jti] else 0;
    var marker := if t.iat != 0 && t.merchant in w.store.markers && t.iat <= w.store.markers[t.merchant].second
                  then w.store.markers[t.merchant].expiresAt else 0;
    var at := if key < marker then marker else key;
    ms := if w.now < at then at - w.now else 0;
  }

  /** Nothing but the clock and the revocation of this delegation, by an administrator. */
  predicate Revives(e: Event, t: Token) { e.Tick? || e == RevokeDelegation(None, t.jti) }

  lemma Run3(c: Mfa.Crypto, w: World, e: Event, f: Event, g: Event)
    ensures Run(c, w, [e, f, g]) == Step(c, Step(c, Step(c, w, e), f), g)
  {
    var w1 := Step(c, w, e);
    var w2 := Step(c, w1, f);
    assert [e, f, g][1..] == [f, g] && [f, g][1..] == [g] && [g][1..] == [];
    assert Run(c, w2, [g]) == Run(c, Step(c, w2, g), [g][1..]) == Step(c, w2, g);
    assert Run(c, w1, [f, g]) == Run(c, w2, [f, g][1..]);
    assert Run(c, w, [e, f, g]) == Run(c, w1, [e, f, g][1..]);
  }

  /** A token that is not dead validates at the end of some run. */
  lemma ComesBack(c: Mfa.Crypto, w: World, t: Token) returns (es: seq<Event>)
    requires WellFormed(w) && t in w.issued && t.merchant != "" && !Dead(w, t)
    ensures forall e | e in es :: Revives(e, t)
    ensures Validates(Run(c, w, es), t) && Run(c, w, es).merchants == w.merchants && t in Run(c, w, es).issued
  {
    if KeyLasts(w, t) {
      var row := w.delegations[t.jti];
      var at := FallsShort(w.now, row.tokenExpiresAt, t.exp);
      var w1 := w.(now := at);
      var w2 := AfterRevokeDelegation(w1, t.jti);
      var ms := LapsesBeforeExpiry(w2, t);
      es := [Tick(at - w.now), RevokeDelegation(None, t.jti), Tick(ms)];
      Run3(c, w, es[0], es[1], es[2]);
    } else {
      var ms := LapsesBeforeExpiry(w, t);
      es := [Tick(ms)];
      assert Run(c, w, es) == Run(c, Step(c, w, es[0]), es[1..]) == Step(c, w, es[0]);
    }
  }

  /** An issued token never validates again, whatever happens, if and only if it is dead: expired,
      under a marker that outlives it, or under a key that does and that revoking its delegation
      cannot cut short. */
  lemma NeverAgainIff(c: Mfa.Crypto, w: World, t: Token)
    requires WellFormed(w) && t in w.issued && t.merchant != ""
    ensures (forall es :: !Validates(Run(c, w, es), t)) <==> Dead(w, t)
  {
    if Dead(w, t) {
      forall es ensures !Validates(Run(c, w, es), t) { DeadForever(c, w, es, t); }
    } else {
      var es := ComesBack(c, w, t);
    }
  }

  /** The token logs out, or is traded. */
  ghost predicate Ends(c: Mfa.Crypto, w: World, e: Event) {
    || (e.Logout? && CanActivate(w, Protected, Some(e.token)))
    || (e.Trade? && Trades(c, w, e.token, e.code))
  }

  /** A token that logs out, or is traded, never validates again in any run, if and only if it is not
      the token of a delegation whose revocation can still cut its key short. */
  lemma RevokedForeverIff(c: Mfa.Crypto, w: World, e: Event)
    requires WellFormed(w) && Ends(c, w, e)
    ensures (forall es :: !Validates(Run(c, Step(c, w, e), es), e.token)) <==> !CanBeShortened(w, e.token)
  {
    StepWellFormed(c, w, e);
    KillLasts(w, e.token);
    assert !MarkerLasts(Step(c, w, e), e.token);
    NeverAgainIff(c, Step(c, w, e), e.token);
  }

  /** In particular for every token that is not an agent's. */
  lemma RevokedForever(c: Mfa.Crypto, w: World, e: Event, es: seq<Event>)
    requires WellFormed(w) && Ends(c, w, e) && !e.token.agent
    ensures !Validates(Run(c, Step(c, w, e), es), e.token)
  {
    RevokedForeverIff(c, w, e);
  }

  /** Revoking a delegation revokes its valid token for good if and only if the clock is not further
      into its second than at creation, and the token was signed within the second of its creation. */
  lemma DelegationRevokedForeverIff(c: Mfa.Crypto, w: World, actor: Option<Token>, t: Token)
    requires WellFormed(w) && t in w.issued && Validates(w, t) && MayRevoke(w, actor, t.jti)
    ensures (forall es :: !Validates(Run(c, Step(c, w, RevokeDelegation(actor, t.jti)), es), t))
       <==> Reaches(w.now, w.delegations[t.jti].tokenExpiresAt, t.exp)
  {
    var row := w.delegations[t.jti];
    StepWellFormed(c, w, RevokeDelegation(actor, t.jti));
    ReachesIff(w.now, row.tokenExpiresAt, t.exp);
    NeverAgainIff(c, Step(c, w, RevokeDelegation(actor, t.jti)), t);
  }

  /** One active merchant, at the first second, and nothing else. */
  function Start(): World {
    World(1000, Store(map[], map[]), map["m" := Merchant(true, Mfa.State(false, None, []))], {}, 0, map[])
  }

  /** It logs in and delegates. */
  lemma Delegated(c: Mfa.Crypto, ttlSeconds: nat) returns (v: World, t: Token, es: seq<Event>)
    ensures WellFormed(Start()) && v == Run(c, Start(), es) && WellFormed(v)
    ensures t == Token("m", 1, 1, 1 + ttlSeconds, false, true) && t in v.issued
    ensures v.now == 1000 && v.store == Store(map[], map[]) && v.merchants == Start().merchants
    ensures v.delegations == map[1 := Delegation("m", 1000 + ttlSeconds * 1000, false)]
  {
    var u := Token("m", 0, 1, 3601, false, false);
    t := Token("m", 1, 1, 1 + ttlSeconds, false, true);
    es := [Login("m", true), Delegate(u, ttlSeconds, 0), Tick(0)];
    var w1 := Step(c, Start(), es[0]);
    assert w1.issued == {u};
    Run3(c, Start(), es[0], es[1], es[2]);
    v := Run(c, Start(), es);
    RunWellFormed(c, Start(), es);
  }

  /** An agent's token of sixty seconds logs out in its first second. Its delegation is revoked in the
      next, and in its last second the token validates again. */
  lemma LoggedOutAgentComesBack(c: Mfa.Crypto) returns (v: World, t: Token, before: seq<Event>, es: seq<Event>)
    ensures WellFormed(Start()) && Start().issued == {} && v == Step(c, Run(c, Start(), before), Tick(500))
    ensures Ends(c, v, Logout(t)) && t.agent
    ensures Validates(Run(c, Step(c, v, Logout(t)), es), t)
  {
    var v0;
    v0, t, before := Delegated(c, 60);
    v := Step(c, v0, Tick(500));
    es := [Tick(1000), RevokeDelegation(None, 1), Tick(58100)];
    var w' := Step(c, v, Logout(t));
    Run3(c, w', es[0], es[1], es[2]);
    assert Run(c, w', es).store.tokens[1] == 60500 && Run(c, w', es).now == 60600;
  }

  lemma TradeIsFinal(w: World, t: Token, s: Mfa.State)
    requires Validates(w, t) && t.merchant in w.merchants
    ensures KeyLasts(AfterTrade(w, t, s), t) && !Validates(AfterTrade(w, t, s), t)
  {
    KillLasts(WithMfa(w, t.merchant, s), t);
  }

  lemma KillLasts(w: World, t: Token)
    requires Validates(w, t)
    ensures KeyLasts(Kill(w, t), t) && !Validates(Kill(w, t), t)
  {
    assert Seconds(w.now) * 1000 <= w.now;
  }

  // ----- live tokens ---------------------------------------------------------------------

  /** The step revokes nothing that `t` depends on. */
  predicate Spares(e: Event, t: Token) {
    && !(e.Logout? && e.token == t)
    && !(e.Trade? && e.token == t)
    && !(e.RevokeSessions? && e.merchant == t.merchant)
    && !(e.RevokeDelegation? && e.jti == t.jti)
  }

  ghost predicate AllSpare(es: seq<Event>, t: Token) {
    forall e | e in es :: Spares(e, t)
  }

  /** Nothing that decides on `t`, but the clock, differs between two worlds. */
  ghost predicate SameKeys(v: World, w: World, t: Token) {
    && (t.jti in v.store.tokens <==> t.jti in w.store.tokens)
    && (t.jti in v.store.tokens ==> v.store.tokens[t.jti] == w.store.tokens[t.jti])
    && (t.merchant in v.store.markers <==> t.merchant in w.store.markers)
    && (t.merchant in v.store.markers ==> v.store.markers[t.merchant] == w.store.markers[t.merchant])
  }

  lemma SparedStep(c: Mfa.Crypto, w: World, e: Event, t: Token)
    requires WellFormed(w) && t in w.issued && Spares(e, t)
    ensures SameKeys(w, Step(c, w, e), t)
  {
    match e
    case Trade(u, code) => if Trades(c, w, u, code) { assert u.jti != t.jti; }
    case Logout(u) => if u in w.issued { assert u.jti != t.jti; }
    case _ =>
  }

  lemma {:induction false} SparedKeepsKeys(c: Mfa.Crypto, w: World, es: seq<Event>, t: Token)
    requires WellFormed(w) && t in w.issued && AllSpare(es, t)
    ensures SameKeys(w, Run(c, w, es), t)
    decreases |es|
  {
    if es != [] {
      StepWellFormed(c, w, es[0]);
      SparedStep(c, w, es[0], t);
      SparedKeepsKeys(c, Step(c, w, es[0]), es[1..], t);
    }
  }

  /** A valid token that is spared stays valid exactly until it expires. */
  lemma ValidUntilExpiry(c: Mfa.Crypto, w: World, es: seq<Event>, t: Token)
    requires WellFormed(w) && t in w.issued && Validates(w, t) && AllSpare(es, t)
    ensures Validates(Run(c, w, es), t) <==> Run(c, w, es).now < t.exp * 1000
  {
    SparedKeepsKeys(c, w, es, t);
    RunWellFormed(c, w, es);
  }

  /** A login token works at once, unless all sessions were revoked in the same second. */
  lemma FreshTokenValidates(c: Mfa.Crypto, w: World, m: MerchantId, t: Token)
    requires WellFormed(w) && m != "" && Seconds(w.now) != 0
    requires t in Step(c, w, Login(m, true)).issued - w.issued
    ensures t.merchant == m && t.iat == Seconds(w.now)
    ensures Validates(Step(c, w, Login(m, true)), t)
       <==> !(&& m in w.store.markers
              && w.store.markers[m].second == Seconds(w.now) && w.now < w.store.markers[m].expiresAt)
  {
  }

  // ----- log out everywhere -------------------------------------------------------------

  const MARKER_MS := MERCHANT_REVOCATION_TTL_SECONDS * 1000

  /** After "revoke all", a token that was valid validates again, if spared from then on, exactly
      in the time after the marker has lapsed and before the token expires. */
  lemma RevokeAllExactly(c: Mfa.Crypto, w: World, es: seq<Event>, t: Token)
    requires WellFormed(w) && t in w.issued && Validates(w, t) && t.iat != 0
    requires t.merchant in w.merchants && AllSpare(es, t)
    ensures var end := Run(c, Step(c, w, RevokeSessions(t.merchant)), es);
            Validates(end, t) <==> w.now + MARKER_MS <= end.now < t.exp * 1000
  {
    var w' := Step(c, w, RevokeSessions(t.merchant));
    StepWellFormed(c, w, RevokeSessions(t.merchant));
    SparedKeepsKeys(c, w', es, t);
    RunWellFormed(c, w', es);
  }

  /** "Revoke all" is final for a valid token, whatever happens after it, if and only if the
      seven-day marker outlives the token. */
  lemma RevokeAllIsFinalIff(c: Mfa.Crypto, w: World, t: Token)
    requires WellFormed(w) && t in w.issued && Validates(w, t) && t.iat != 0
    requires t.merchant in w.merchants
    ensures (forall es :: !Validates(Run(c, Step(c, w, RevokeSessions(t.merchant)), es), t))
       <==> t.exp * 1000 <= w.now + MARKER_MS
  {
    var w' := Step(c, w, RevokeSessions(t.merchant));
    StepWellFormed(c, w, RevokeSessions(t.merchant));
    if t.exp * 1000 <= w.now + MARKER_MS {
      forall es ensures !Validates(Run(c, w', es), t) { DeadForever(c, w', es, t); }
    } else {
      var es := [Tick(MARKER_MS)];
      assert Run(c, w', es) == Run(c, Step(c, w', es[0]), es[1..]) == Step(c, w', es[0]);
      RevokeAllExactly(c, w, es, t);
      assert Validates(Run(c, w', es), t);
    }
  }

  /** So it is final for every token that lives at most seven days, as all tokens from a login or
      an MFA trade do. */
  lemma RevokeAllIsFinal(c: Mfa.Crypto, w: World, t: Token, es: seq<Event>)
    requires WellFormed(w) && t in w.issued && t.iat != 0
    requires t.merchant in w.merchants && t.exp <= t.iat + MERCHANT_REVOCATION_TTL_SECONDS
    ensures !Validates(Run(c, Step(c, w, RevokeSessions(t.merchant)), es), t)
  {
    StepWellFormed(c, w, RevokeSessions(t.merchant));
    assert t.exp * 1000 <= Seconds(w.now) * 1000 + MARKER_MS <= w.now + MARKER_MS;
    DeadForever(c, Step(c, w, RevokeSessions(t.merchant)), es, t);
  }

  /** A delegation may outlive the marker, so the promise does not hold of every token. */
  lemma RevokeAllIsNotFinalForLongDelegations(c: Mfa.Crypto)
    returns (v: World, t: Token, before: seq<Event>, es: seq<Event>)
    ensures WellFormed(Start()) && Start().issued == {} && v == Run(c, Start(), before)
    ensures t in v.issued && Validates(v, t) && t.merchant in v.merchants
    ensures t.agent && t.exp == t.iat + 30 * 24 * 3600
    ensures Validates(Run(c, Step(c, v, RevokeSessions(t.merchant)), es), t)
  {
    v, t, before := Delegated(c, 30 * 24 * 3600);
    es := [Tick(MARKER_MS)];
    var w' := Step(c, v, RevokeSessions("m"));
    assert Run(c, w', es) == Run(c, Step(c, w', es[0]), es[1..]) == Step(c, w', es[0]);
    RevokeAllExactly(c, v, es, t);
  }

  // ----- deactivation ----------------------------------------------------------------------

  ghost function TokensOf(w: World, m: MerchantId): set<Token> {
    set t | t in w.issued && t.merchant == m
  }

  /** The merchant is inactive and all its tokens are dead. */
  ghost predicate Sealed(w: World, m: MerchantId) {
    && m in w.merchants && !w.merchants[m].active
    && forall t | t in TokensOf(w, m) :: Dead(w, t)
  }

  ghost predicate NoReactivation(es: seq<Event>, m: MerchantId) {
    Reactivate(m) !in es
  }

  lemma SealedStep(c: Mfa.Crypto, w: World, e: Event, m: MerchantId)
    requires WellFormed(w) && Sealed(w, m) && e != Reactivate(m)
    ensures Sealed(Step(c, w, e), m) && TokensOf(Step(c, w, e), m) == TokensOf(w, m)
  {
    forall t | t in TokensOf(w, m) ensures !Validates(w, t) && Dead(Step(c, w, e), t) {
      DeadDoesNotValidate(w, t);
      DeadStaysDead(c, w, e, t);
    }
    assert forall t | t in w.issued && t.merchant == m :: t in TokensOf(w, m);
    assert TokensOf(Step(c, w, e), m) == TokensOf(w, m);
  }

  /** Until reactivation a sealed merchant has no valid token and gets none. */
  lemma {:induction false} SealedUntilReactivation(c: Mfa.Crypto, w: World, es: seq<Event>, m: MerchantId)
    requires WellFormed(w) && Sealed(w, m) && NoReactivation(es, m)
    ensures Sealed(Run(c, w, es), m) && TokensOf(Run(c, w, es), m) == TokensOf(w, m)
    ensures forall t | t in TokensOf(Run(c, w, es), m) :: !Validates(Run(c, w, es), t)
    decreases |es|
  {
    if es == [] {
      forall t | t in TokensOf(w, m) ensures !Validates(w, t) { DeadDoesNotValidate(w, t); }
    } else {
      StepWellFormed(c, w, es[0]);
      SealedStep(c, w, es[0], m);
      SealedUntilReactivation(c, Step(c, w, es[0]), es[1..], m);
    }
  }

  lemma {:induction false} InactiveUntilReactivation(c: Mfa.Crypto, w: World, es: seq<Event>, m: MerchantId)
    requires m in w.merchants && !w.merchants[m].active && NoReactivation(es, m)
    ensures m in Run(c, w, es).merchants && !Run(c, w, es).merchants[m].active
    decreases |es|
  {
    if es != [] { InactiveUntilReactivation(c, Step(c, w, es[0]), es[1..], m); }
  }

  /** Where the second write of a deactivation lands: the row was saved as inactive, then anything
      but a reactivation happened, then all sessions were revoked. */
  function Deactivated(c: Mfa.Crypto, w: World, between: seq<Event>, m: MerchantId): World {
    Step(c, Run(c, Step(c, w, Deactivate(m)), between), RevokeSessions(m))
  }

  /** The token is dead already or the marker written now will outlive it. */
  ghost predicate Covered(w: World, t: Token) {
    Dead(w, t) || (t.iat != 0 && t.exp * 1000 <= w.now + MARKER_MS)
  }

  lemma DeactivationSeals(c: Mfa.Crypto, w: World, between: seq<Event>, m: MerchantId)
    requires WellFormed(w) && m in w.merchants && NoReactivation(between, m)
    requires var v := Run(c, Step(c, w, Deactivate(m)), between);
             forall t | t in TokensOf(v, m) :: Covered(v, t)
    ensures WellFormed(Deactivated(c, w, between, m)) && Sealed(Deactivated(c, w, between, m), m)
  {
    var w1 := Step(c, w, Deactivate(m));
    var v := Run(c, w1, between);
    StepWellFormed(c, w, Deactivate(m));
    RunWellFormed(c, w1, between);
    InactiveUntilReactivation(c, w1, between, m);
    StepWellFormed(c, v, RevokeSessions(m));
    var end := Step(c, v, RevokeSessions(m));
    forall t | t in TokensOf(end, m) ensures Dead(end, t) {
      assert t in TokensOf(v, m);
      if Dead(v, t) { DeadStaysDead(c, v, RevokeSessions(m), t); }
    }
  }

  /** The merchant has no valid token at the end of any run without a reactivation. */
  ghost predicate ShutOut(c: Mfa.Crypto, w: World, m: MerchantId) {
    forall es, t | NoReactivation(es, m) && t in TokensOf(Run(c, w, es), m) :: !Validates(Run(c, w, es), t)
  }

  lemma UncoveredComesBack(c: Mfa.Crypto, v: World, m: MerchantId, t: Token)
    requires WellFormed(v) && m in v.merchants && m != ""
    requires t in TokensOf(v, m) && !Covered(v, t)
    ensures !ShutOut(c, Step(c, v, RevokeSessions(m)), m)
  {
    var w := Step(c, v, RevokeSessions(m));
    StepWellFormed(c, v, RevokeSessions(m));
    assert !Dead(w, t);
    var es := ComesBack(c, w, t);
    assert NoReactivation(es, m) && t in TokensOf(Run(c, w, es), m);
  }

  /** A completed deactivation shuts the merchant out until it is reactivated, whatever was
      interleaved with its two writes, if and only if every issued token is dead or will be outlived
      by the marker. */
  lemma DeactivationShutsOutIff(c: Mfa.Crypto, w: World, between: seq<Event>, m: MerchantId)
    requires WellFormed(w) && m in w.merchants && m != "" && NoReactivation(between, m)
    ensures var v := Run(c, Step(c, w, Deactivate(m)), between);
            ShutOut(c, Deactivated(c, w, between, m), m) <==> forall t | t in TokensOf(v, m) :: Covered(v, t)
  {
    var v := Run(c, Step(c, w, Deactivate(m)), between);
    var end := Deactivated(c, w, between, m);
    StepWellFormed(c, w, Deactivate(m));
    RunWellFormed(c, Step(c, w, Deactivate(m)), between);
    InactiveUntilReactivation(c, Step(c, w, Deactivate(m)), between, m);
    if t :| t in TokensOf(v, m) && !Covered(v, t) {
      UncoveredComesBack(c, v, m, t);
    } else {
      DeactivationSeals(c, w, between, m);
      forall es, t | NoReactivation(es, m) && t in TokensOf(Run(c, end, es), m) ensures !Validates(Run(c, end, es), t) {
        SealedUntilReactivation(c, end, es, m);
      }
    }
  }

  /** Every token lives at most as long as the marker. */
  ghost predicate ShortLived(w: World) {
    Seconds(w.now) != 0
    && forall t | t in w.issued :: t.iat != 0 && t.exp <= t.iat + MERCHANT_REVOCATION_TTL_SECONDS
  }

  ghost predicate ShortDelegations(es: seq<Event>) {
    forall e | e in es && e.Delegate? :: e.ttlSeconds <= MERCHANT_REVOCATION_TTL_SECONDS
  }

  /** Tokens from logins and trades always do; only delegations may not. */
  lemma {:induction false} StaysShortLived(c: Mfa.Crypto, w: World, es: seq<Event>)
    requires ShortLived(w) && ShortDelegations(es)
    ensures ShortLived(Run(c, w, es))
    decreases |es|
  {
    if es != [] {
      assert es[0] in es;
      StaysShortLived(c, Step(c, w, es[0]), es[1..]);
    }
  }

  /** In particular when no delegation was given more than seven days; and no token of any kind is
      issued to the merchant either. */
  lemma DeactivationShutsOut(c: Mfa.Crypto, w: World, between: seq<Event>, es: seq<Event>, m: MerchantId, t: Token)
    requires WellFormed(w) && ShortLived(w) && ShortDelegations(between)
    requires m in w.merchants && NoReactivation(between, m) && NoReactivation(es, m)
    ensures var end := Deactivated(c, w, between, m);
            && TokensOf(Run(c, end, es), m) == TokensOf(end, m)
            && (t in TokensOf(Run(c, end, es), m) ==> !Validates(Run(c, end, es), t))
  {
    var w1 := Step(c, w, Deactivate(m));
    var v := Run(c, w1, between);
    StepWellFormed(c, w, Deactivate(m));
    RunWellFormed(c, w1, between);
    StaysShortLived(c, w1, between);
    forall u | u in TokensOf(v, m) ensures Covered(v, u) {
      assert u.exp * 1000 <= Seconds(v.now) * 1000 + MARKER_MS <= v.now + MARKER_MS;
    }
    DeactivationSeals(c, w, between, m);
    SealedUntilReactivation(c, Deactivated(c, w, between, m), es, m);
  }

  // ----- a verification that is interrupted ----------------------------------------------------------

  /** `verifyCode` has read the row in `w` and compared the code with it. In `v` it saves all of the row it
      has read if a backup code was used, and nothing if the code was a TOTP code or refused. */
  function Verified(c: Mfa.Crypto, w: World, v: World, m: MerchantId, code: string): World
    requires m in w.merchants
  {
    var row := w.merchants[m];
    var s := Mfa.Verify(c, row.mfa, code, w.now).1;
    if s == row.mfa then v else v.(merchants := v.merchants[m := row.(mfa := s)])
  }

  lemma {:induction false} MerchantsStay(c: Mfa.Crypto, w: World, es: seq<Event>, m: MerchantId)
    requires m in w.merchants
    ensures m in Run(c, w, es).merchants
    decreases |es|
  {
    if es != [] { MerchantsStay(c, Step(c, w, es[0]), es[1..], m); }
  }

  /** If nothing comes in between, it is the step of the machine. */
  lemma VerifiedAtOnce(c: Mfa.Crypto, w: World, m: MerchantId, code: string)
    requires m in w.merchants
    ensures Verified(c, w, w, m, code) == WithMfa(w, m, Mfa.Verify(c, w.merchants[m].mfa, code, w.now).1)
  {
    assert w.merchants[m := w.merchants[m]] == w.merchants;
  }

  /** With this between reading and saving, the save leaves it as it is whether the merchant is active. */
  ghost predicate KeepsActive(c: Mfa.Crypto, w: World, between: seq<Event>, m: MerchantId, code: string)
    requires m in w.merchants
  {
    var v := Run(c, w, between);
    m in v.merchants && Verified(c, w, v, m, code).merchants[m].active == v.merchants[m].active
  }

  /** A verification keeps it, whatever comes between reading and saving, if and only if it uses no backup
      code. */
  lemma VerificationIsHarmlessIff(c: Mfa.Crypto, w: World, m: MerchantId, code: string)
    requires m in w.merchants
    ensures (forall between :: KeepsActive(c, w, between, m, code))
       <==> Mfa.Verify(c, w.merchants[m].mfa, code, w.now).1 == w.merchants[m].mfa
  {
    if Mfa.Verify(c, w.merchants[m].mfa, code, w.now).1 == w.merchants[m].mfa {
      forall between ensures KeepsActive(c, w, between, m, code) { MerchantsStay(c, w, between, m); }
    } else {
      var e := if w.merchants[m].active then Deactivate(m) else Reactivate(m);
      var v := Step(c, w, e);
      assert Run(c, w, [e]) == Run(c, v, [e][1..]) == v;
      assert !KeepsActive(c, w, [e], m, code);
    }
  }

  lemma IssueAdds(w: World, m: MerchantId, ttl: nat, pending: bool)
    requires forall t | t in w.issued :: t.jti < w.nextJti
    ensures |TokensOf(Issue(w, m, ttl, pending, false), m)| == |TokensOf(w, m)| + 1
  {
    var t := Token(m, w.nextJti, Seconds(w.now), Seconds(w.now) + ttl, pending, false);
    assert t !in w.issued;
    assert TokensOf(Issue(w, m, ttl, pending, false), m) == TokensOf(w, m) + {t};
  }

  lemma LoginIssues(c: Mfa.Crypto, w: World, m: MerchantId)
    requires WellFormed(w) && m in w.merchants && w.merchants[m].active
    ensures |TokensOf(Step(c, w, Login(m, true)), m)| == |TokensOf(w, m)| + 1
  {
    IssueAdds(w, m, MFA_PENDING_TOKEN_TTL_SECONDS, true);
    IssueAdds(w, m, FULL_TOKEN_TTL_SECONDS, false);
  }

  lemma DeactivatedAtOnce(c: Mfa.Crypto, w: World, m: MerchantId)
    requires WellFormed(w) && m in w.merchants
    ensures var v := Deactivated(c, w, [], m);
            WellFormed(v) && m in v.merchants && !v.merchants[m].active
  {
    StepWellFormed(c, w, Deactivate(m));
    StepWellFormed(c, Step(c, w, Deactivate(m)), RevokeSessions(m));
  }

  /** A whole deactivation in between is undone: the merchant is active, and is issued tokens again. */
  lemma DeactivationCanBeUndone(c: Mfa.Crypto, w: World, m: MerchantId, code: string)
    requires WellFormed(w) && m in w.merchants && w.merchants[m].active
    requires Mfa.Verify(c, w.merchants[m].mfa, code, w.now).1 != w.merchants[m].mfa
    ensures var v := Deactivated(c, w, [], m);
            var end := Verified(c, w, v, m, code);
            && m in v.merchants && !v.merchants[m].active && end.merchants[m].active
            && |TokensOf(Step(c, end, Login(m, true)), m)| == |TokensOf(end, m)| + 1
  {
    var v := Deactivated(c, w, [], m);
    DeactivatedAtOnce(c, w, m);
    RowsWellFormed(v, Verified(c, w, v, m, code).merchants);
    LoginIssues(c, Verified(c, w, v, m, code), m);
  }

  // ----- the second factor --------------------------------------------------------------------

  /** How often the run trades `t` for a full token. */
  ghost function TimesTraded(c: Mfa.Crypto, w: World, es: seq<Event>, t: Token): nat
    decreases |es|
  {
    if es == [] then 0
    else
      (if es[0].Trade? && es[0].token == t && Trades(c, w, t, es[0].code) then 1 else 0)
      + TimesTraded(c, Step(c, w, es[0]), es[1..], t)
  }

  lemma {:induction false} DeadIsNeverTraded(c: Mfa.Crypto, w: World, es: seq<Event>, t: Token)
    requires WellFormed(w) && t in w.issued && Dead(w, t)
    ensures TimesTraded(c, w, es, t) == 0
    decreases |es|
  {
    if es != [] {
      DeadDoesNotValidate(w, t);
      StepWellFormed(c, w, es[0]);
      DeadStaysDead(c, w, es[0], t);
      DeadIsNeverTraded(c, Step(c, w, es[0]), es[1..], t);
    }
  }

  /** A bound on the trades of `t` to come: one, unless it has a key for the rest of its life, and one
      more while its delegation can be revoked, which may cut that key short. */
  ghost function TradesLeft(w: World, t: Token): nat {
    if t !in w.issued then if t.agent then 2 else 1
    else (if KeyLasts(w, t) then 0 else 1) + (if Revocable(w, t) then 1 else 0)
  }

  lemma TradeCosts(c: Mfa.Crypto, w: World, t: Token, code: string)
    requires WellFormed(w) && Trades(c, w, t, code)
    ensures 1 + TradesLeft(Step(c, w, Trade(t, code)), t) <= TradesLeft(w, t)
  {
    KillLasts(w, t);
  }

  lemma TradesLeftShrinks(c: Mfa.Crypto, w: World, e: Event, t: Token)
    requires WellFormed(w)
    ensures TradesLeft(Step(c, w, e), t) <= TradesLeft(w, t)
  {
    StepWellFormed(c, w, e);
    if t in w.issued {
      assert Revocable(Step(c, w, e), t) ==> Revocable(w, t);
      if !(e.RevokeDelegation? && e.jti == t.jti) && KeyLasts(w, t) { KeyStays(c, w, e, t); }
    } else if t in Step(c, w, e).issued {
      assert t.jti == w.nextJti;
    }
  }

  lemma KeyStays(c: Mfa.Crypto, w: World, e: Event, t: Token)
    requires WellFormed(w) && t in w.issued && KeyLasts(w, t) && !(e.RevokeDelegation? && e.jti == t.jti)
    ensures KeyLasts(Step(c, w, e), t)
  {
  }

  lemma {:induction false} TradesBounded(c: Mfa.Crypto, w: World, es: seq<Event>, t: Token)
    requires WellFormed(w)
    ensures TimesTraded(c, w, es, t) <= TradesLeft(w, t)
    decreases |es|
  {
    if es != [] {
      StepWellFormed(c, w, es[0]);
      TradesLeftShrinks(c, w, es[0], t);
      if es[0].Trade? && es[0].token == t && Trades(c, w, t, es[0].code) { TradeCosts(c, w, t, es[0].code); }
      TradesBounded(c, Step(c, w, es[0]), es[1..], t);
    }
  }

  /** In every run a token is traded at most once, or twice if it is an agent's. */
  lemma TradesAreBounded(c: Mfa.Crypto, w: World, es: seq<Event>, t: Token)
    requires WellFormed(w)
    ensures TimesTraded(c, w, es, t) <= if t.agent then 2 else 1
  {
    TradesBounded(c, w, es, t);
  }

  lemma {:induction false} TimesTradedSplits(c: Mfa.Crypto, w: World, es: seq<Event>, fs: seq<Event>, t: Token)
    ensures TimesTraded(c, w, es + fs, t) == TimesTraded(c, w, es, t) + TimesTraded(c, Run(c, w, es), fs, t)
    decreases |es|
  {
    if es == [] {
      assert es + fs == fs;
    } else {
      assert (es + fs)[1..] == es[1..] + fs;
      TimesTradedSplits(c, Step(c, w, es[0]), es[1..], fs, t);
    }
  }

  /** A traded token can be traded again, given a code that stays good, if and only if it belongs to
      a delegation whose revocation can still cut its key short. */
  lemma TradedAgainIff(c: Mfa.Crypto, w: World, t: Token, code: string, again: string)
    requires WellFormed(w) && Trades(c, w, t, code)
    requires var mfa := Step(c, w, Trade(t, code)).merchants[t.merchant].mfa;
             forall now :: Mfa.Verify(c, mfa, again, now).0.Done?
    ensures (exists es :: TimesTraded(c, Step(c, w, Trade(t, code)), es, t) > 0) <==> CanBeShortened(w, t)
  {
    var w' := Step(c, w, Trade(t, code));
    StepWellFormed(c, w, Trade(t, code));
    KillLasts(w, t);
    if CanBeShortened(w, t) {
      assert !Dead(w', t);
      var es := ComesBack(c, w', t);
      var end := Run(c, w', es);
      TimesTradedSplits(c, w', es, [Trade(t, again)], t);
      assert Trades(c, end, t, again);
      assert TimesTraded(c, end, [Trade(t, again)], t) >= 1;
    } else {
      forall es ensures TimesTraded(c, w', es, t) == 0 { DeadIsNeverTraded(c, w', es, t); }
    }
  }

  /** A pending token does nothing but be traded: every other request with it changes nothing. */
  lemma PendingOnlyTrades(c: Mfa.Crypto, w: World, e: Event)
    requires e.Logout? || e.Enroll? || e.Confirm? || e.Disable? || e.Delegate? || (e.RevokeDelegation? && e.actor.Some?)
    requires if e.RevokeDelegation? then e.actor.value.mfaPending else e.token.mfaPending
    ensures Step(c, w, e) == w
  {
  }

  /** How a token may come to be issued by one step. */
  ghost predicate IssuedBy(c: Mfa.Crypto, w: World, e: Event, t: Token) {
    && t.merchant in w.merchants && t.iat == Seconds(if e.Delegate? then w.now + e.lag else w.now)
    && var mfa, life := w.merchants[t.merchant].mfa.enabled, t.exp - t.iat;
       match e
       case Login(m, secretMatches) =>
         && m == t.merchant && secretMatches && w.merchants[m].active && !t.agent
         && t.mfaPending == mfa && life == if mfa then 300 else 3600
       case Trade(u, code) =>
         && u.merchant == t.merchant && mfa && CanActivate(w, MfaVerify, Some(u))
         && w.merchants[t.merchant].mfa.secret.Some?
         && (|| c.validTotp(w.merchants[t.merchant].mfa.secret.value, code, w.now)
             || exists h :: h in w.merchants[t.merchant].mfa.hashes && c.compare(code, h))
         && !t.mfaPending && t.agent == u.agent && life == 3600
       case Delegate(u, ttl, _) =>
         && u in w.issued && u.merchant == t.merchant && !u.agent && !u.mfaPending && Validates(w, u)
         && !t.mfaPending && t.agent && life == ttl
       case _ => false
  }

  ghost predicate KnownMerchants(w: World) {
    forall t | t in w.issued :: t.merchant in w.merchants
  }

  lemma StepIssues(c: Mfa.Crypto, w: World, e: Event, t: Token)
    requires KnownMerchants(w) && t in Step(c, w, e).issued && t !in w.issued
    ensures IssuedBy(c, w, e, t)
  {
    if e.Trade? { TradesIff(c, w, e.token, e.code); }
  }

  lemma StepKnowsMerchants(c: Mfa.Crypto, w: World, e: Event)
    requires KnownMerchants(w)
    ensures KnownMerchants(Step(c, w, e))
  {
  }

  /** Every token of every run comes from a step that was entitled to issue it. */
  lemma {:induction false} Provenance(c: Mfa.Crypto, w: World, es: seq<Event>, t: Token) returns (k: nat)
    requires KnownMerchants(w)
    requires t in Run(c, w, es).issued && t !in w.issued
    ensures k < |es|
    ensures t !in Run(c, w, es[..k]).issued && t in Run(c, w, es[..k + 1]).issued
    ensures IssuedBy(c, Run(c, w, es[..k]), es[k], t)
    decreases |es|
  {
    var w' := Step(c, w, es[0]);
    if t in w'.issued {
      k := 0;
      StepIssues(c, w, es[0], t);
      assert es[..1][1..] == [] && Run(c, w, es[..1]) == Run(c, w', es[..1][1..]) == w';
    } else {
      StepKnowsMerchants(c, w, es[0]);
      k := Provenance(c, w', es[1..], t);
      assert es[..k + 1][1..] == es[1..][..k] && es[..k + 2][1..] == es[1..][..k + 1];
      k := k + 1;
    }
  }

  /** The step trades a token of the merchant for a full one, with a code that is accepted. */
  ghost predicate AcceptedTrade(c: Mfa.Crypto, w: World, e: Event, m: MerchantId) {
    && e.Trade? && e.token.merchant == m && CanActivate(w, MfaVerify, Some(e.token)) && m in w.merchants
    && var s := w.merchants[m].mfa;
       && s.enabled && s.secret.Some?
       && (c.validTotp(s.secret.value, e.code, w.now) || exists h :: h in s.hashes && c.compare(e.code, h))
  }

  /** A full token issued while MFA is enabled comes from an accepted trade if and only if the step
      that issued it was not a delegation; so it always does if it is not an agent's. */
  lemma FullTokenUnderMfaIff(c: Mfa.Crypto, w: World, es: seq<Event>, t: Token) returns (k: nat)
    requires KnownMerchants(w) && !t.mfaPending
    requires t in Run(c, w, es).issued && t !in w.issued
    ensures k < |es| && t !in Run(c, w, es[..k]).issued && t in Run(c, w, es[..k + 1]).issued
    ensures var v := Run(c, w, es[..k]);
            && t.merchant in v.merchants
            && (v.merchants[t.merchant].mfa.enabled ==>
                  && (AcceptedTrade(c, v, es[k], t.merchant) <==> !es[k].Delegate?)
                  && (!t.agent ==> AcceptedTrade(c, v, es[k], t.merchant)))
  {
    k := Provenance(c, w, es, t);
  }

  /** A session from before MFA was enabled delegates without a code. */
  lemma DelegationNeedsNoTrade() returns (c: Mfa.Crypto, w: World, es: seq<Event>, last: Event, t: Token)
    ensures WellFormed(w) && w.issued == {} && "m" in w.merchants
    ensures last.Delegate? && forall e | e in es :: !e.Trade?
    ensures var v := Run(c, w, es);
            && "m" in v.merchants && v.merchants["m"].mfa.enabled
            && t !in v.issued && t in Step(c, v, last).issued && t.merchant == "m" && !t.mfaPending
  {
    c := Mfa.Crypto((_, _, _) => true, (x, _) => x, (x, h) => x == h);
    w := Start();
    var u := Token("m", 0, 1, 3601, false, false);
    var batch: Mfa.Batch := seq(Mfa.BACKUP_CODE_COUNT, _ => ("", ""));
    es := [Login("m", true), Enroll(u, ""), Confirm(u, "", batch)];
    last := Delegate(u, 30 * 24 * 3600, 0);
    t := Token("m", 1, 1, 1 + 30 * 24 * 3600, false, true);
    var w1 := Step(c, w, es[0]);
    assert w1.issued == {u};
    var w2 := Step(c, w1, es[1]);
    assert w2 == w1.(merchants := map["m" := Merchant(true, Mfa.State(false, Some(""), []))]);
    var w3 := Step(c, w2, es[2]);
    Run3(c, w, es[0], es[1], es[2]);
    assert w3.issued == {u} && w3.merchants["m"].mfa.enabled;
  }

  /** Yet every full token goes back to an accepted trade, to a login while MFA was not enabled, or
      to a delegation by a token from before the run. */
  lemma AuthorityOf(c: Mfa.Crypto, w: World, es: seq<Event>, t: Token) returns (k: nat)
    requires KnownMerchants(w) && !t.mfaPending
    requires t in Run(c, w, es).issued && t !in w.issued
    ensures k < |es|
    ensures var v, m := Run(c, w, es[..k]), t.merchant;
            || AcceptedTrade(c, v, es[k], m)
            || (es[k] == Login(m, true) && m in v.merchants && v.merchants[m].active && !v.merchants[m].mfa.enabled)
            || (es[k].Delegate? && es[k].token in w.issued && es[k].token.merchant == m && !es[k].token.mfaPending)
  {
    k := Provenance(c, w, es, t);
    if es[k].Delegate? && es[k].token !in w.issued {
      var j := Provenance(c, w, es[..k], es[k].token);
      assert es[..k][..j] == es[..j];
      k := j;
    }
  }

  // ----- the controller ------------------------------------------------------------------------

  /** `AuthController`, `DelegationService.revoke` and `MerchantService.setActive` over the state. */
  class AuthController {
    const crypto: Mfa.Crypto
    var world: World

    constructor (crypto: Mfa.Crypto, world: World)
      ensures this.crypto == crypto && this.world == world
    {
      this.crypto, this.world := crypto, world;
    }

    /** POST /auth/token: a new token, pending if MFA is enabled, or 401. */
    method IssueToken(m: MerchantId, secretMatches: bool) returns (r: Option<Token>)
      requires WellFormed(world)
      modifies this`world
      ensures WellFormed(world) && world == Step(crypto, old(world), Login(m, secretMatches))
      ensures r.Some? <==> m in old(world).merchants && old(world).merchants[m].active && secretMatches
      ensures r.None? ==> world == old(world)
      ensures r.Some? ==> r.value !in old(world).issued && world.issued == old(world).issued + {r.value}
      ensures r.Some? ==> var mfa, t := old(world).merchants[m].mfa.enabled, r.value;
                          && t.merchant == m && t.iat == world.now / 1000 && !t.agent && t.mfaPending == mfa
                          && t.exp == t.iat + if mfa then 300 else 3600
    {
      StepWellFormed(crypto, world, Login(m, secretMatches));
      if m !in world.merchants || !world.merchants[m].active || !secretMatches { return None; }
      var iat, jti := world.now / 1000, world.nextJti;
      var token;
      if world.merchants[m].mfa.enabled {
        token := Token(m, jti, iat, iat + MFA_PENDING_TOKEN_TTL_SECONDS, true, false);
      } else {
        token := Token(m, jti, iat, iat + FULL_TOKEN_TTL_SECONDS, false, false);
      }
      world := world.(issued := world.issued + {token}, nextJti := jti + 1);
      return Some(token);
    }

    /** POST /auth/revoke. */
    method RevokeCurrentToken(t: Token) returns (ok: bool)
      requires WellFormed(world)
      modifies this`world
      ensures WellFormed(world) && world == Step(crypto, old(world), Logout(t))
      ensures ok <==> CanActivate(old(world), Protected, Some(t))
      ensures ok ==> !Validates(world, t)
    {
      StepWellFormed(crypto, world, Logout(t));
      ok := CanActivate(world, Protected, Some(t));
      if ok {
        KillLasts(world, t);
        var remainingSeconds := t.exp - world.now / 1000;
        world := world.(store := AfterRevoke(world.store, world.now, t.jti, remainingSeconds));
      }
    }

    /** POST /auth/mfa/verify: the pending token is killed and a full one issued, if the code is good. */
    method VerifyMfa(t: Token, code: string) returns (r: Option<Token>)
      requires WellFormed(world)
      modifies this`world
      ensures WellFormed(world) && world == Step(crypto, old(world), Trade(t, code))
      ensures r.Some?
         <==> && CanActivate(old(world), MfaVerify, Some(t)) && t.merchant in old(world).merchants
              && var s := old(world).merchants[t.merchant].mfa;
                 && s.enabled && s.secret.Some?
                 && (|| crypto.validTotp(s.secret.value, code, old(world).now)
                     || exists h :: h in s.hashes && crypto.compare(code, h))
      ensures r.Some? ==> !Validates(world, t)
      ensures r.Some? ==> !r.value.mfaPending && r.value !in old(world).issued && r.value in world.issued
    {
      StepWellFormed(crypto, world, Trade(t, code));
      TradesIff(crypto, world, t, code);
      if !CanActivate(world, MfaVerify, Some(t)) || t.merchant !in world.merchants { return None; }
      var (outcome, mfa) := Mfa.Verify(crypto, world.merchants[t.merchant].mfa, code, world.now);
      if !outcome.Done? { return None; }
      TradeIsFinal(world, t, mfa);
      var iat, jti := world.now / 1000, world.nextJti;
      var token := Token(t.merchant, jti, iat, iat + FULL_TOKEN_TTL_SECONDS, false, t.agent);
      world := world.(merchants := world.merchants[t.merchant := world.merchants[t.merchant].(mfa := mfa)]);
      world := world.(store := AfterRevoke(world.store, world.now, t.jti, t.exp - iat));
      world := world.(issued := world.issued + {token}, nextJti := jti + 1);
      assert world == AfterTrade(old(world), t, mfa);
      return Some(token);
    }

    /** POST /delegations/:id/revoke, by a merchant or, without a token, by an administrator. */
    method RevokeDelegation(actor: Option<Token>, jti: TokenId) returns (ok: bool)
      requires WellFormed(world)
      modifies this`world
      ensures WellFormed(world) && world == Step(crypto, old(world), Event.RevokeDelegation(actor, jti))
      ensures ok <==> && jti in old(world).delegations && !old(world).delegations[jti].revoked
                      && (|| actor.None?
                          || (&& CanActivate(old(world), Protected, actor) && !actor.value.agent
                              && actor.value.merchant == old(world).delegations[jti].merchant))
      ensures ok ==> forall t | t in world.issued && t.jti == jti && Validates(old(world), t) ::
                !Validates(world, t) <==> world.now + 1000 <= world.delegations[jti].tokenExpiresAt
    {
      StepWellFormed(crypto, world, Event.RevokeDelegation(actor, jti));
      if jti !in world.delegations || world.delegations[jti].revoked { return false; }
      if actor.Some? && !OwnsDelegation(world, actor.value, jti) { return false; }
      var row := world.delegations[jti];
      world := world.(delegations := world.delegations[jti := row.(revoked := true)]);
      var remainingSeconds := (row.tokenExpiresAt - world.now) / 1000;
      world := world.(store := AfterRevoke(world.store, world.now, jti, remainingSeconds));
      return true;
    }

    /** `setActive`: the row is saved, and on deactivation all sessions are revoked after that. */
    method SetActive(m: MerchantId, isActive: bool) returns (found: bool)
      requires WellFormed(world)
      modifies this`world
      ensures WellFormed(world)
      ensures world == if isActive then Step(crypto, old(world), Reactivate(m))
                       else Deactivated(crypto, old(world), [], m)
      ensures found <==> m in old(world).merchants
    {
      StepWellFormed(crypto, world, if isActive then Reactivate(m) else Deactivate(m));
      StepWellFormed(crypto, Step(crypto, world, Deactivate(m)), RevokeSessions(m));
      found := m in world.merchants;
      if found {
        world := world.(merchants := world.merchants[m := world.merchants[m].(active := isActive)]);
        if !isActive {
          world := world.(store := AfterRevokeAll(world.store, world.now, m));
        }
      }
    }
  }
}
