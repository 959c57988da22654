/**
  Properties of whole `authenticate` calls: which path a call takes for a
  given cache and given answers from the token endpoint and the browser, and
  what each path does and does not do.
*/
module AuthProperties {
  import opened Wrappers
  import opened Pkce
  import opened JsonValues
  import opened TokenCache
  import opened Callback
  import opened Coordinator

  /** A cache file holding the object `m`. */
  predicate CacheHolds(w: World, m: map<string, Json>) {
    w.cacheFile == Parsed(JObject(m))
  }

  /** `m` has a numeric `expires_at` equal to `e`. */
  predicate ExpiresAt(m: map<string, Json>, e: int) {
    "expires_at" in m && NumericValue(m["expires_at"]) == Some(e)
  }

  /** A fresh cached record is used as is: no refresh, no browser, nothing saved. */
  lemma FreshCacheUsesCachedToken(cfg: Config, w: World, m: map<string, Json>, e: int)
    requires CacheHolds(w, m) && ExpiresAt(m, e) && IsFresh(e, w.now)
    requires "access_token" in m
    ensures var c := Client(m["access_token"]);
            Authenticate(cfg, None, w) == AuthResult(Authenticated(c), [ReadCache], None, Some(c))
  {
    assert LoadTokenCache(w.cacheFile, w.now) == Some(m);
    assert "expires_at" in m;
  }

  /**
    A stale cached record is refreshed exactly once; on success the client
    uses the new access token, and the saved record keeps the cached refresh
    token when the response carries none.
  */
  lemma StaleCacheRefreshedOnce(cfg: Config, w: World, m: map<string, Json>, e: int, tokens: map<string, Json>)
    requires CacheHolds(w, m) && ExpiresAt(m, e) && !IsFresh(e, w.now)
    requires HasRefreshToken(m)
    requires w.refresh == RefreshReturned(tokens) && "access_token" in tokens
    ensures var r := Authenticate(cfg, None, w);
            && r.outcome == Authenticated(Client(tokens["access_token"]))
            && r.actions == [ReadCache, RefreshCall(m["refresh_token"])]
            && (r.saved.Some? <==> w.cacheWritable && HasRequiredFields(tokens) && NumericValue(tokens["expires_in"]).Some?)
            && (r.saved.Some? ==>
                  && r.saved.value.refreshToken == GetOr(tokens, "refresh_token", m["refresh_token"])
                  && r.saved.value.accessToken == tokens["access_token"]
                  && r.saved.value.expiresAt == w.now + NumericValue(tokens["expires_in"]).value)
  {
    assert LoadTokenCache(w.cacheFile, w.now) == Some(m);
    var kept := KeptRefreshToken(tokens, m["refresh_token"]);
    assert HasRequiredFields(kept) == HasRequiredFields(tokens);
    assert "refresh_token" in kept && kept["refresh_token"] == GetOr(tokens, "refresh_token", m["refresh_token"]);
  }

  /**
    A refresh that raises is not an error of the call: the interactive flow
    follows it, and the call ends as that flow ends.
  */
  lemma RefreshFailureFallsBackToFullFlow(cfg: Config, w: World, m: map<string, Json>, e: int)
    requires CacheHolds(w, m) && ExpiresAt(m, e) && !IsFresh(e, w.now)
    requires HasRefreshToken(m)
    requires w.refresh == RefreshRaised
    ensures var r := Authenticate(cfg, None, w);
            && r.actions[..2] == [ReadCache, RefreshCall(m["refresh_token"])]
            && r.actions[2..] == FullFlow(cfg, w).actions
            && r.actions[2] == OpenBrowser(FlowParams(cfg, w))
            && r.outcome == FullFlow(cfg, w).outcome
  {
    StaleCacheRefreshes(cfg, w, m, e);
    assert FlowRan(Authenticate(cfg, None, w).actions);
  }

  /** A stale cached record that can be refreshed hands the call to the refresh stage. */
  lemma StaleCacheRefreshes(cfg: Config, w: World, m: map<string, Json>, e: int)
    requires CacheHolds(w, m) && ExpiresAt(m, e) && !IsFresh(e, w.now)
    requires HasRefreshToken(m)
    ensures Authenticate(cfg, None, w) == FromRefresh(cfg, m["refresh_token"], w)
  {
    assert LoadTokenCache(w.cacheFile, w.now) == Some(m);
    assert "expires_at" in m;
  }

  /**
    A cached record that loading kept for its refresh token but that has no
    `expires_at` makes the call raise a `KeyError` instead of refreshing.
  */
  lemma MissingExpiryRaises(cfg: Config, w: World, m: map<string, Json>)
    requires CacheHolds(w, m) && "expires_at" !in m && HasRefreshToken(m)
    ensures Authenticate(cfg, None, w) == AuthResult(Failed(MissingKey("expires_at")), [ReadCache], None, None)
  {
    assert LoadTokenCache(w.cacheFile, w.now) == Some(m);
    assert "refresh_token" in m;
  }

  /**
    Without a usable cache the call goes straight to the interactive flow:
    one browser launch with the nonce as `state`, then exactly one listener
    on port 8888.
  */
  lemma NoCacheStartsFullFlow(cfg: Config, w: World)
    requires LoadTokenCache(w.cacheFile, w.now).None?
    ensures var r := Authenticate(cfg, None, w);
            && r.actions[0] == ReadCache
            && r.actions[1] == OpenBrowser(FlowParams(cfg, w))
            && r.actions[1].params[5] == ("state", StateNonce(w.nonceBytes))
            && r.actions[2] == Listen(ListenerPort)
            && (forall i :: 0 <= i < |r.actions| && r.actions[i].Listen? ==> i == 2)
            && r.outcome == FullFlow(cfg, w).outcome
  {
    NoCacheIsFlow(cfg, w);
    ReadThenFlow(Authenticate(cfg, None, w), FullFlow(cfg, w));
  }

  lemma NoCacheIsFlow(cfg: Config, w: World)
    requires LoadTokenCache(w.cacheFile, w.now).None?
    ensures Authenticate(cfg, None, w) == After([ReadCache], FullFlow(cfg, w))
  {
  }

  /** The interactive flow run right after the cache read: browser, then the only listener. */
  lemma ReadThenFlow(r: AuthResult, flow: AuthResult)
    requires IsFullFlowTrace(flow.actions)
    requires r == After([ReadCache], flow)
    ensures r.actions[0] == ReadCache
    ensures r.actions[1] == flow.actions[0]
    ensures r.actions[2] == Listen(ListenerPort)
    ensures forall i :: 0 <= i < |r.actions| && r.actions[i].Listen? ==> i == 2
    ensures r.outcome == flow.outcome
  {
    assert forall i :: 1 <= i < |r.actions| ==> r.actions[i] == flow.actions[i - 1];
  }

  /**
    Every call is a valid trace, so it refreshes at most once and listens at
    most once, in that order.
  */
  lemma AtMostOneRefreshAndOneListener(cfg: Config, current: Option<Client>, w: World)
    ensures var a := Authenticate(cfg, current, w).actions;
            && (forall i, j :: 0 <= i < j < |a| && a[i].RefreshCall? ==> !a[j].RefreshCall? && !a[j].ReadCache?)
            && (forall i, j :: 0 <= i < j < |a| && a[i].Listen? ==> !a[j].Listen? && !a[j].RefreshCall?)
  {
    ValidTraceOrder(Authenticate(cfg, current, w).actions);
  }

  lemma ValidTraceOrder(a: seq<Action>)
    requires ValidTrace(a)
    ensures forall i, j :: 0 <= i < j < |a| && a[i].RefreshCall? ==> !a[j].RefreshCall? && !a[j].ReadCache?
    ensures forall i, j :: 0 <= i < j < |a| && a[i].Listen? ==> !a[j].Listen? && !a[j].RefreshCall?
  {
    if |a| >= 1 && a[0] == ReadCache && IsFullFlowTrace(a[1..]) {
      assert forall k :: 1 <= k < |a| ==> a[k] == a[1..][k - 1];
    } else if |a| >= 2 && a[0] == ReadCache && a[1].RefreshCall? && IsFullFlowTrace(a[2..]) {
      assert forall k :: 2 <= k < |a| ==> a[k] == a[2..][k - 2];
    }
  }

  /** In a valid trace, only the interactive flow listens, launches the browser or exchanges a code. */
  lemma FlowStepsOnlyInFlow(a: seq<Action>, i: nat)
    requires ValidTrace(a) && i < |a|
    requires a[i].OpenBrowser? || a[i].Listen? || a[i].ExchangeCode?
    ensures FlowRan(a) && FlowStart(a) <= i
    ensures a[i].ExchangeCode? ==> i == FlowStart(a) + 2
  {
    if |a| >= 1 && a[0] == ReadCache && IsFullFlowTrace(a[1..]) {
      assert a[i] == a[1..][i - 1];
    } else if |a| >= 2 && a[0] == ReadCache && a[1].RefreshCall? && IsFullFlowTrace(a[2..]) {
      assert a[i] == a[2..][i - 2];
    }
  }

  /**
    A code is exchanged only after the callback's `state` matched the
    generated nonce, and it is exchanged with the verifier.
  */
  lemma ExchangeOnlyAfterStateCheck(cfg: Config, current: Option<Client>, w: World, i: nat)
    requires var a := Authenticate(cfg, current, w).actions; i < |a| && a[i].ExchangeCode?
    ensures Serve(w.requests).Returned?
    ensures Serve(w.requests).result.state == StateNonce(w.nonceBytes)
    ensures Authenticate(cfg, current, w).actions[i]
            == ExchangeCode(Serve(w.requests).result.code, CodeVerifier(w.verifierBytes))
  {
    var a := Authenticate(cfg, current, w).actions;
    var flow := FullFlow(cfg, w);
    FlowStepsOnlyInFlow(a, i);
    var k := FlowStart(a);
    assert a[k..] == flow.actions;
    assert a[i] == flow.actions[2];
  }

  /**
    Once the interactive flow has run, a callback whose `state` differs from
    the nonce ends the call with a state mismatch, and nothing is saved; in
    no case is a code exchanged.
  */
  lemma StateMismatchAbortsBeforeExchange(cfg: Config, current: Option<Client>, w: World)
    requires Serve(w.requests).Returned? && Serve(w.requests).result.state != StateNonce(w.nonceBytes)
    ensures var r := Authenticate(cfg, current, w);
            && (forall i :: 0 <= i < |r.actions| ==> !r.actions[i].ExchangeCode?)
            && (FlowRan(r.actions) ==> r.outcome == Failed(StateMismatch) && r.saved == None)
  {
    var r := Authenticate(cfg, current, w);
    forall i | 0 <= i < |r.actions| ensures !r.actions[i].ExchangeCode? {
      if r.actions[i].ExchangeCode? {
        ExchangeOnlyAfterStateCheck(cfg, current, w, i);
      }
    }
  }

  /** A successful call leaves a client that the fast path and `get_client` return from then on. */
  lemma AuthenticatedClientIsKept(cfg: Config, current: Option<Client>, w: World, w': World)
    requires Authenticate(cfg, current, w).outcome.Authenticated?
    ensures var r := Authenticate(cfg, current, w);
            && Authenticate(cfg, r.client, w') == AuthResult(r.outcome, [], None, r.client)
            && GetClient(r.client) == Ok(r.outcome.client)
  {
  }

  /** Any other outcome leaves no client, so `get_client` raises "not authenticated". */
  lemma FailedCallLeavesNoClient(cfg: Config, w: World)
    requires !Authenticate(cfg, None, w).outcome.Authenticated?
    ensures GetClient(Authenticate(cfg, None, w).client) == Err(NotAuthenticated)
  {
  }

  /**
    The concrete scenario: client id "abc123", the one scope
    "user-read-email" and no cache file; the authorization URL carries the
    client id, the S256 method, the code response type, the scope and the
    nonce that the callback is later checked against.
  */
  lemma ExampleAuthorizationUrl(w: World, redirectUri: string)
    requires w.cacheFile == Missing
    ensures var cfg := Config("abc123", redirectUri, ["user-read-email"]);
            var a := Authenticate(cfg, None, w).actions;
            && a[1].OpenBrowser?
            && ("client_id", "abc123") in a[1].params
            && ("code_challenge_method", "S256") in a[1].params
            && ("response_type", "code") in a[1].params
            && ("scope", "user-read-email") in a[1].params
            && ("state", StateNonce(w.nonceBytes)) in a[1].params
  {
    var cfg := Config("abc123", redirectUri, ["user-read-email"]);
    NoCacheIsFlow(cfg, w);
    ReadThenFlow(Authenticate(cfg, None, w), FullFlow(cfg, w));
    var ps := FlowParams(cfg, w);
    assert ps[6] == ("scope", "user-read-email");
    assert ps[0] in ps && ps[1] in ps && ps[3] in ps && ps[5] in ps && ps[6] in ps;
  }
}
