/** From a sign-in session to a grant, from a grant to a host cookie, and every slide of that cookie. */
module HostCookie {
  import opened Bytes
  import opened Saturating

  datatype Payload = Payload(username: string, groups: seq<string>, session: Option<string>, expiresAt: U64,
                             generation: U64, grantId: Option<string>, provedAt: U64, refresh: Option<string>,
                             sessionExpiresAt: Option<U64>)

  /** The session lifetimes, and whether host cookies slide at all. */
  datatype Config = Config(grantTtl: U64, hostTtl: U64, sliding: bool)

  // ----- the three payloads

  function CappedExpiry(now: U64, ttl: U64, sessionExpiresAt: Option<U64>): (e: U64) {
    var wanted := SatAdd(now, ttl);
    if sessionExpiresAt.Some? then Min(wanted, sessionExpiresAt.value) else wanted
  }

  /** Opening a sealed value: an expired one does not open. */
  predicate Opens(p: Payload, now: U64) {
    now < p.expiresAt
  }

  /** `/host-session`: a one-time grant from the session. */
  function MintGrant(sso: Payload, now: U64, grantTtl: U64, id: string): (grant: Payload) {
    sso.(expiresAt := SatAdd(now, grantTtl), grantId := Some(id), refresh := None,
         sessionExpiresAt := Some(sso.expiresAt))
  }

  /** `redeem`: a host cookie from a grant. */
  function Redeemed(p: Payload, now: U64, ttl: U64): (cookie: Option<Payload>) {
    if !Opens(p, now) || p.grantId.None? then None
    else Some(p.(expiresAt := CappedExpiry(now, ttl, p.sessionExpiresAt), grantId := None, refresh := None))
  }

  /** The cookie `p` slides into at `now`, if it slides at all. */
  function Slid(p: Payload, now: U64, ttl: U64): (r: Option<Payload>) {
    var cap :- p.sessionExpiresAt;
    if now < SatSub(p.expiresAt, ttl / 2) then None
    else
      var expiresAt := CappedExpiry(now, ttl, Some(cap));
      if expiresAt <= p.expiresAt then None else Some(p.(expiresAt := expiresAt))
  }

  /** `GatewayState::slide`: only where sliding is switched on, and only an open value that is no grant. */
  function Slide(config: Config, p: Payload, now: U64): (r: Option<Payload>) {
    if !config.sliding || !Opens(p, now) || p.grantId.Some? then None else Slid(p, now, config.hostTtl)
  }

  /** A slide moves the expiry, and only that, strictly forward, to the cap at most. */
  lemma SlideMovesOnlyExpiry(config: Config, p: Payload, now: U64)
    requires Slide(config, p, now).Some?
    ensures var r, ttl := Slide(config, p, now).value, config.hostTtl;
            && r == p.(expiresAt := r.expiresAt)
            && p.sessionExpiresAt.Some?
            && p.expiresAt < r.expiresAt <= p.sessionExpiresAt.value
            && (r.expiresAt == now + ttl || r.expiresAt == p.sessionExpiresAt.value)
            && r.expiresAt <= now + ttl
  {
  }

  /** A redemption gives the full lifetime or the rest of the session, whichever ends first. */
  lemma RedemptionLifetime(sso: Payload, minted: U64, grantTtl: U64, id: string, now: U64, ttl: U64)
    requires Opens(MintGrant(sso, minted, grantTtl, id), now)
    ensures var cookie := Redeemed(MintGrant(sso, minted, grantTtl, id), now, ttl);
            && cookie.Some?
            && cookie.value == sso.(expiresAt := cookie.value.expiresAt, grantId := None, refresh := None,
                                    sessionExpiresAt := Some(sso.expiresAt))
            && cookie.value.expiresAt == Min(now + ttl, sso.expiresAt)
  {
  }

  /** A grant is its session's identity, opens for its own lifetime only, and knows when the session ends. */
  lemma GrantLifetime(sso: Payload, minted: U64, grantTtl: U64, id: string, now: U64)
    ensures var grant := MintGrant(sso, minted, grantTtl, id);
            && (Opens(grant, now) <==> now < minted + grantTtl && now < U64_MAX)
            && grant == sso.(expiresAt := grant.expiresAt, grantId := Some(id), refresh := None,
                             sessionExpiresAt := Some(sso.expiresAt))
  {
  }

  /** Only an open grant is redeemed, and what it turns into is no grant and refreshes nothing. */
  lemma RedeemsExactlyWhen(p: Payload, now: U64, ttl: U64)
    ensures Redeemed(p, now, ttl).Some? <==> now < p.expiresAt && p.grantId.Some?
    ensures Redeemed(p, now, ttl).Some? ==>
              var cookie := Redeemed(p, now, ttl).value;
              && cookie.grantId == None && cookie.refresh == None
              && cookie == p.(expiresAt := cookie.expiresAt, grantId := None, refresh := None)
  {
  }

  /** It slides exactly when it may, being a live cookie past its half-life with session left to slide into. */
  lemma SlidesExactlyWhen(config: Config, p: Payload, now: U64)
    ensures Slide(config, p, now).Some? <==>
            && config.sliding && p.grantId.None? && p.sessionExpiresAt.Some?
            && p.expiresAt - config.hostTtl / 2 <= now < p.expiresAt < p.sessionExpiresAt.value
            && p.expiresAt < now + config.hostTtl
  {
  }

  // ----- runs

  /** A sealed value in circulation. Sealing is what makes this list complete: nothing else opens. */
  datatype Token =
    | Sso(sso: Payload)
    | HostBound(bound: Payload, origin: Payload)

  datatype Action =
    | SignIn(sso: Payload)
    | HostSession(sso: Payload, id: string)
    | Redeem(grant: Payload, origin: Payload)
    | SlideCookie(cookie: Payload, origin: Payload)

  /** The token one action mints. Any value in circulation may be presented, whatever it really is. */
  function Minted(config: Config, issued: set<Token>, action: Action, now: U64): (r: Option<Token>) {
    match action
    case SignIn(sso) => Some(Sso(sso))
    case HostSession(sso, id) =>
      if Sso(sso) in issued && Opens(sso, now) then Some(HostBound(MintGrant(sso, now, config.grantTtl, id), sso))
      else None
    case Redeem(grant, origin) =>
      if HostBound(grant, origin) !in issued then None
      else
        var cookie :- Redeemed(grant, now, config.hostTtl);
        Some(HostBound(cookie, origin))
    case SlideCookie(cookie, origin) =>
      if HostBound(cookie, origin) !in issued then None
      else
        var renewed :- Slide(config, cookie, now);
        Some(HostBound(renewed, origin))
  }

  function Step(config: Config, issued: set<Token>, action: Action, now: U64): (r: set<Token>) {
    match Minted(config, issued, action, now)
    case Some(token) => issued + {token}
    case None => issued
  }

  /** Everything in circulation after a run of actions, each at its own moment. */
  function Issued(config: Config, run: seq<(Action, U64)>): (r: set<Token>) {
    if run == [] then {}
    else Step(config, Issued(config, run[..|run| - 1]), run[|run| - 1].0, run[|run| - 1].1)
  }

  /**
   * A host-bound value says who its session said. A host cookie ends with that session, and a grant, minted
   * while the session was live, no later than its own lifetime after it.
   */
  ghost predicate Lineage(config: Config, issued: set<Token>, token: Token) {
    token.HostBound? ==>
      var p, o := token.bound, token.origin;
      && Sso(o) in issued
      && p.sessionExpiresAt == Some(o.expiresAt)
      && p.refresh == None
      && p == o.(expiresAt := p.expiresAt, grantId := p.grantId, refresh := None, sessionExpiresAt := Some(o.expiresAt))
      && (p.grantId.None? ==> p.expiresAt <= o.expiresAt)
      && (p.grantId.Some? ==> p.expiresAt < o.expiresAt + config.grantTtl)
  }

  lemma MintedLineage(config: Config, issued: set<Token>, action: Action, now: U64)
    requires forall token | token in issued :: Lineage(config, issued, token)
    requires Minted(config, issued, action, now).Some?
    ensures Lineage(config, issued, Minted(config, issued, action, now).value)
  {
  }

  /** In every run, every host cookie ends no later than the sign-in session its grant came from. */
  lemma {:induction false} CookiesNeverOutliveTheirSession(config: Config, run: seq<(Action, U64)>, token: Token)
    requires token in Issued(config, run)
    ensures Lineage(config, Issued(config, run), token)
    decreases |run|
  {
    var n := |run| - 1;
    var before, after := Issued(config, run[..n]), Issued(config, run);
    forall t | t in before
      ensures Lineage(config, before, t)
    {
      CookiesNeverOutliveTheirSession(config, run[..n], t);
    }
    assert before <= after;
    if token !in before {
      MintedLineage(config, before, run[n].0, run[n].1);
    } else {
      assert Lineage(config, before, token);
    }
  }

  /** The whole way, taken in time: a sign-in, a grant and its redemption give the cookie of that session. */
  lemma SessionYieldsCookie(config: Config, sso: Payload, signedIn: U64, minted: U64, redeemed: U64, id: string)
    requires minted < sso.expiresAt && redeemed < minted + config.grantTtl && redeemed < U64_MAX
    ensures var grant := MintGrant(sso, minted, config.grantTtl, id);
            var run := [(SignIn(sso), signedIn), (HostSession(sso, id), minted), (Redeem(grant, sso), redeemed)];
            var cookie := sso.(expiresAt := Min(redeemed + config.hostTtl, sso.expiresAt), grantId := None,
                               refresh := None, sessionExpiresAt := Some(sso.expiresAt));
            Issued(config, run) == {Sso(sso), HostBound(grant, sso), HostBound(cookie, sso)}
  {
    var grant := MintGrant(sso, minted, config.grantTtl, id);
    var run: seq<(Action, U64)> :=
      [(SignIn(sso), signedIn), (HostSession(sso, id), minted), (Redeem(grant, sso), redeemed)];
    GrantLifetime(sso, minted, config.grantTtl, id, redeemed);
    RedemptionLifetime(sso, minted, config.grantTtl, id, redeemed, config.hostTtl);
    assert run[..2] == [run[0], run[1]] && run[..2][..1] == [run[0]];
    assert Issued(config, [run[0]]) == {Sso(sso)};
    assert Issued(config, run[..2]) == {Sso(sso), HostBound(grant, sso)};
  }

  // ----- how often one cookie slides

  /** One cookie slid over and over: at `times[i]` the `i`-th cookie became the next. */
  ghost predicate SlideChain(config: Config, cookies: seq<Payload>, times: seq<U64>) {
    && |cookies| == |times| + 1
    && forall i | 0 <= i < |times| :: SlidAt(config, cookies, times, i)
  }

  ghost predicate SlidAt(config: Config, cookies: seq<Payload>, times: seq<U64>, i: nat)
    requires i < |times| && i + 1 < |cookies|
  {
    Slide(config, cookies[i], times[i]) == Some(cookies[i + 1])
  }

  /** What has to pass before a fresh cookie slides. */
  function HalfLife(config: Config): int {
    config.hostTtl - config.hostTtl / 2
  }

  /** A second slide waits at least half a lifetime after the first. */
  lemma SlidesAreApart(config: Config, p: Payload, q: Payload, r: Payload, first: U64, second: U64)
    requires Slide(config, p, first) == Some(q) && Slide(config, q, second) == Some(r)
    ensures second >= first + HalfLife(config)
    ensures q.sessionExpiresAt.Some? && second < q.sessionExpiresAt.value
    ensures q.expiresAt == first + config.hostTtl
  {
  }

  lemma {:induction false} ChainTimes(config: Config, cookies: seq<Payload>, times: seq<U64>, n: nat)
    requires SlideChain(config, cookies, times) && n < |times|
    ensures times[n] >= times[0] + n * HalfLife(config)
    ensures cookies[0].sessionExpiresAt.Some? && cookies[n].sessionExpiresAt == cookies[0].sessionExpiresAt
  {
    assert SlidAt(config, cookies, times, n);
    if n > 0 {
      ChainTimes(config, cookies, times, n - 1);
      assert SlidAt(config, cookies, times, n - 1);
      SlidesAreApart(config, cookies[n - 1], cookies[n], cookies[n + 1], times[n - 1], times[n]);
      SlideMovesOnlyExpiry(config, cookies[n - 1], times[n - 1]);
      HalfLives(n, HalfLife(config));
    }
  }

  lemma HalfLives(n: nat, half: int)
    requires n > 0
    ensures n * half == (n - 1) * half + half
  {
  }

  /** Sliding ends: a session leaves room for only so many half-lives. */
  lemma SlidesAreBounded(config: Config, cookies: seq<Payload>, times: seq<U64>)
    requires SlideChain(config, cookies, times) && |times| > 1
    ensures cookies[0].sessionExpiresAt.Some?
    ensures times[0] + (|times| - 1) * HalfLife(config) < cookies[0].sessionExpiresAt.value
  {
    var last := |times| - 1;
    ChainTimes(config, cookies, times, last);
    assert SlidAt(config, cookies, times, last) && SlidAt(config, cookies, times, last - 1);
    SlidesAreApart(config, cookies[last - 1], cookies[last], cookies[last + 1], times[last - 1], times[last]);
  }

  /** A cookie at its cap has slid for the last time. */
  lemma CapIsFinal(config: Config, p: Payload, now: U64)
    requires p.sessionExpiresAt == Some(p.expiresAt)
    ensures Slide(config, p, now) == None
  {
  }
}
