/**
  The authentication coordinator (`SpotifyAuth.authenticate` and
  `get_client`). One call is a total function of the in-memory client, the
  clock reading `now`, and the answers of everything outside the process:
  the cache file, whether the cache can be written, the refresh and code
  exchange responses of the token endpoint, the random bytes, the digest,
  and the requests the callback listener receives. It returns the outcome,
  the externally visible actions in order, the record saved and the new
  in-memory client.
*/
module Coordinator {
  import opened Wrappers
  import opened Encoding
  import opened Pkce
  import opened JsonValues
  import opened TokenCache
  import opened Callback

  /** The port `authenticate` always passes to the callback listener. */
  const ListenerPort: int := 8888

  /** The authorization endpoint the browser is sent to. */
  const AuthorizeEndpoint := "https://accounts.spotify.com/authorize"

  datatype Config = Config(clientId: string, redirectUri: string, scopes: seq<string>)

  /** An API client authenticated with the given access token. */
  datatype Client = Client(auth: Json)

  /** What the token endpoint's refresh call does: raise, or return a token response. */
  datatype RefreshReply = RefreshRaised | RefreshReturned(tokens: map<string, Json>)

  /** What the token endpoint's code exchange does: raise, or return a token response. */
  datatype ExchangeReply = ExchangeRaised | ExchangeReturned(tokens: map<string, Json>)

  /** Everything one call observes outside the process. */
  datatype World = World(
    now: int,
    cacheFile: FileContents,
    cacheWritable: bool,
    refresh: RefreshReply,
    verifierBytes: Bytes32,
    nonceBytes: Bytes16,
    sha256: Digest,
    requests: seq<Request>,
    exchange: ExchangeReply)

  /** Externally visible steps of a call, in the order they happen. */
  datatype Action =
    | ReadCache
    | RefreshCall(refreshToken: Json)
    | OpenBrowser(params: seq<(string, string)>)
    | Listen(port: int)
    | ExchangeCode(code: string, verifier: string)

  /** The exceptions `authenticate` and `get_client` raise. */
  datatype AuthError =
    | MissingKey(key: string)       // a `KeyError` outside any `try`
    | NotComparable(key: string)    // a `TypeError` outside any `try`
    | CallbackFailed(message: string)
    | StateMismatch
    | ExchangeFailed
    | NotAuthenticated

  datatype Outcome =
    | Authenticated(client: Client)
    | Failed(error: AuthError)
    | WaitingForCallback            // the listener never received a terminal request

  datatype AuthResult = AuthResult(
    outcome: Outcome,
    actions: seq<Action>,
    saved: Option<TokenRecord>,
    client: Option<Client>)

  /** Python's `' '.join(scopes)`. */
  function JoinSpaces(words: seq<string>): string
    decreases |words|
  {
    if |words| == 0 then ""
    else if |words| == 1 then words[0]
    else words[0] + " " + JoinSpaces(words[1..])
  }

  /**
    Splitting at every space, as a server reads the space-delimited `scope`
    parameter (section 3.3 of RFC 6749): a reference for what the joined
    string carries.
  */
  function SplitSpaces(s: string): (parts: seq<string>)
    ensures |parts| > 0
    decreases |s|
  {
    if |s| == 0 then [""]
    else
      var rest := SplitSpaces(s[1..]);
      if s[0] == ' ' then [""] + rest else [[s[0]] + rest[0]] + rest[1..]
  }

  /** A word without spaces is one part. */
  lemma {:induction false} SplitWord(w: string)
    requires ' ' !in w
    ensures SplitSpaces(w) == [w]
    decreases |w|
  {
    if |w| > 0 {
      assert ' ' !in w[1..] by { assert forall c :: c in w[1..] ==> c in w; }
      SplitWord(w[1..]);
      assert w == [w[0]] + w[1..];
    }
  }

  /** A word without spaces, then a space, then `t`: the word is the first part. */
  lemma {:induction false} SplitWordThenSpace(w: string, t: string)
    requires ' ' !in w
    ensures SplitSpaces(w + " " + t) == [w] + SplitSpaces(t)
    decreases |w|
  {
    if |w| == 0 {
      assert w + " " + t == [' '] + t;
      assert (w + " " + t)[1..] == t;
    } else {
      assert ' ' !in w[1..] by { assert forall c :: c in w[1..] ==> c in w; }
      SplitWordThenSpace(w[1..], t);
      assert (w + " " + t)[1..] == w[1..] + " " + t;
      assert w == [w[0]] + w[1..];
    }
  }

  /**
    Joining scopes that are space-free loses nothing: splitting the joined
    string at spaces gives the scopes back.
  */
  lemma {:induction false} SplitJoinSpaces(words: seq<string>)
    requires |words| > 0
    requires forall i :: 0 <= i < |words| ==> ' ' !in words[i]
    ensures SplitSpaces(JoinSpaces(words)) == words
    decreases |words|
  {
    if |words| == 1 {
      SplitWord(words[0]);
    } else {
      SplitJoinSpaces(words[1..]);
      SplitWordThenSpace(words[0], JoinSpaces(words[1..]));
      assert words == [words[0]] + words[1..];
    }
  }

  /** The query parameters of the authorization URL, in order. */
  function AuthParams(cfg: Config, challenge: string, nonce: string): (ps: seq<(string, string)>)
    ensures |ps| == 7
    ensures ps[0] == ("client_id", cfg.clientId)
    ensures ps[1] == ("response_type", "code")
    ensures ps[3] == ("code_challenge_method", "S256")
    ensures ps[4] == ("code_challenge", challenge)
    ensures ps[5] == ("state", nonce)
    ensures ps[2] == ("redirect_uri", cfg.redirectUri)
    ensures ps[6] == ("scope", JoinSpaces(cfg.scopes))
  {
    [ ("client_id", cfg.clientId),
      ("response_type", "code"),
      ("redirect_uri", cfg.redirectUri),
      ("code_challenge_method", "S256"),
      ("code_challenge", challenge),
      ("state", nonce),
      ("scope", JoinSpaces(cfg.scopes)) ]
  }

  function Success(client: Client, actions: seq<Action>, saved: Option<TokenRecord>): AuthResult {
    AuthResult(Authenticated(client), actions, saved, Some(client))
  }

  function Failure(e: AuthError, actions: seq<Action>, saved: Option<TokenRecord>): AuthResult {
    AuthResult(Failed(e), actions, saved, None)
  }

  /** The action sequence of the interactive flow, after the steps before it. */
  predicate IsFullFlowTrace(a: seq<Action>) {
    && |a| >= 2
    && a[0].OpenBrowser?
    && a[1] == Listen(ListenerPort)
    && (|a| == 2 || (|a| == 3 && a[2].ExchangeCode?))
  }

  /**
    The order the coordinator may act in: nothing (fast path); or read the
    cache, then at most one refresh, then at most one interactive flow
    (browser, listener, at most one code exchange).
  */
  predicate ValidTrace(a: seq<Action>) {
    || a == []
    || a == [ReadCache]
    || (|a| == 2 && a[0] == ReadCache && a[1].RefreshCall?)
    || (|a| >= 1 && a[0] == ReadCache && IsFullFlowTrace(a[1..]))
    || (|a| >= 2 && a[0] == ReadCache && a[1].RefreshCall? && IsFullFlowTrace(a[2..]))
  }

  /** The verifier, challenge and nonce one interactive attempt draws from `w`. */
  function Verifier(w: World): string {
    CodeVerifier(w.verifierBytes)
  }

  function Nonce(w: World): string {
    StateNonce(w.nonceBytes)
  }

  function FlowParams(cfg: Config, w: World): seq<(string, string)> {
    AuthParams(cfg, CodeChallenge(w.sha256, Verifier(w)), Nonce(w))
  }

  /** The result `r` of a later stage, preceded by the actions `prior` taken before it. */
  function After(prior: seq<Action>, r: AuthResult): (r': AuthResult)
    ensures EndsWithFlow(r', r, |prior|)
  {
    var r' := r.(actions := prior + r.actions);
    assert r'.actions[|prior|..] == r.actions;
    r'
  }

  /** The interactive flow ran: a browser launch follows the cache read, or the refresh. */
  predicate FlowRan(a: seq<Action>) {
    (|a| >= 2 && a[1].OpenBrowser?) || (|a| >= 3 && a[2].OpenBrowser?)
  }

  /** Where the interactive flow's actions begin. */
  function FlowStart(a: seq<Action>): nat {
    if |a| >= 2 && a[1].OpenBrowser? then 1 else 2
  }

  /** From action `k` on, `r` is the interactive flow `flow`, and it ends as `flow` ends. */
  predicate EndsWithFlow(r: AuthResult, flow: AuthResult, k: nat) {
    && k <= |r.actions|
    && r.actions[k..] == flow.actions
    && r.outcome == flow.outcome
    && r.saved == flow.saved
    && r.client == flow.client
  }

  /**
    The interactive PKCE flow. A code is exchanged only when the callback's
    `state` equals the generated nonce, and only together with the verifier.
  */
  function FullFlow(cfg: Config, w: World): (r: AuthResult)
    ensures IsFullFlowTrace(r.actions)
    ensures r.actions[0] == OpenBrowser(FlowParams(cfg, w))
    ensures r.client.Some? <==> r.outcome.Authenticated?
    ensures r.outcome.Authenticated? ==> r.client == Some(r.outcome.client)
    ensures |r.actions| == 3 <==> Serve(w.requests).Returned? && Serve(w.requests).result.state == Nonce(w)
    ensures |r.actions| == 3 ==> r.actions[2] == ExchangeCode(Serve(w.requests).result.code, Verifier(w))
    ensures r.saved.Some? ==> |r.actions| == 3 && w.exchange.ExchangeReturned?
    ensures Serve(w.requests).Waiting? ==> r.outcome == WaitingForCallback
    ensures Serve(w.requests).Raised? ==> r.outcome == Failed(CallbackFailed(Serve(w.requests).message))
    ensures Serve(w.requests).Returned? && Serve(w.requests).result.state != Nonce(w) ==>
              r.outcome == Failed(StateMismatch) && r.saved == None
    ensures |r.actions| == 3 && w.exchange.ExchangeRaised? ==> r.outcome == Failed(ExchangeFailed) && r.saved == None
    ensures |r.actions| == 3 && w.exchange.ExchangeReturned? ==>
              var info := w.exchange.tokens;
              && r.saved == SaveTokenCache(info, w.now, w.cacheWritable)
              && r.outcome == (if "access_token" in info then Authenticated(Client(info["access_token"]))
                               else Failed(MissingKey("access_token")))
  {
    var verifier := Verifier(w);
    var nonce := Nonce(w);
    var acts := [OpenBrowser(FlowParams(cfg, w)), Listen(ListenerPort)];
    match Serve(w.requests)
    case Waiting => AuthResult(WaitingForCallback, acts, None, None)
    case Raised(message) => Failure(CallbackFailed(message), acts, None)
    case Returned(callback) =>
      if nonce != callback.state then Failure(StateMismatch, acts, None)
      else
        var acts' := [OpenBrowser(FlowParams(cfg, w)), Listen(ListenerPort), ExchangeCode(callback.code, verifier)];
        match w.exchange
        case ExchangeRaised => Failure(ExchangeFailed, acts', None)
        case ExchangeReturned(info) =>
          var saved := SaveTokenCache(info, w.now, w.cacheWritable);
          if "access_token" in info then Success(Client(info["access_token"]), acts', saved)
          else Failure(MissingKey("access_token"), acts', saved)
  }

  /** The refresh token a refresh response leaves in force: its own, else the cached one. */
  function KeptRefreshToken(tokens: map<string, Json>, cached: Json): (kept: map<string, Json>)
    ensures kept.Keys == tokens.Keys + {"refresh_token"}
    ensures kept["refresh_token"] == GetOr(tokens, "refresh_token", cached)
    ensures forall k :: k in tokens && k != "refresh_token" ==> kept[k] == tokens[k]
  {
    if "refresh_token" in tokens then tokens else tokens["refresh_token" := cached]
  }

  /**
    A cached record is present: use it while fresh, refresh it once when not,
    and fall back to the interactive flow when the refresh raises.
  */
  function FromCache(cfg: Config, m: map<string, Json>, w: World): (r: AuthResult)
    ensures ValidTrace(r.actions) && |r.actions| > 0
    ensures r.outcome.Authenticated? <==> r.client.Some?
    ensures r.outcome.Authenticated? ==> r.client == Some(r.outcome.client)
    ensures r.saved.Some? ==> w.refresh.RefreshReturned? || w.exchange.ExchangeReturned?
    ensures FlowRan(r.actions) ==> EndsWithFlow(r, FullFlow(cfg, w), FlowStart(r.actions))
  {
    if "expires_at" !in m then Failure(MissingKey("expires_at"), [ReadCache], None)
    else
      match NumericValue(m["expires_at"])
      case None => Failure(NotComparable("expires_at"), [ReadCache], None)
      case Some(expiresAt) =>
        if expiresAt <= w.now + FreshnessBuffer then
          if "refresh_token" !in m then
            // the lookup raises inside the `try`, which falls through
            FlowAfterRead(cfg, w)
          else FromRefresh(cfg, m["refresh_token"], w)
        else if "access_token" in m then Success(Client(m["access_token"]), [ReadCache], None)
        else Failure(MissingKey("access_token"), [ReadCache], None)
  }

  /** The cache read, then the interactive flow. */
  function FlowAfterRead(cfg: Config, w: World): (r: AuthResult)
    ensures r == After([ReadCache], FullFlow(cfg, w))
    ensures ValidTrace(r.actions) && |r.actions| > 0 && r.actions[0] == ReadCache
    ensures r.outcome.Authenticated? <==> r.client.Some?
    ensures r.outcome.Authenticated? ==> r.client == Some(r.outcome.client)
    ensures r.saved.Some? ==> w.exchange.ExchangeReturned?
    ensures FlowRan(r.actions) && FlowStart(r.actions) == 1 && EndsWithFlow(r, FullFlow(cfg, w), 1)
  {
    TraceAfterRead(FullFlow(cfg, w).actions);
    After([ReadCache], FullFlow(cfg, w))
  }

  /**
    A stale cached record with a refresh token: refresh once, keep the cached
    refresh token when the response has none, and fall back to the
    interactive flow when the refresh raises or returns no access token.
  */
  function FromRefresh(cfg: Config, cachedRefresh: Json, w: World): (r: AuthResult)
    ensures |r.actions| >= 2 && r.actions[..2] == [ReadCache, RefreshCall(cachedRefresh)]
    ensures ValidTrace(r.actions)
    ensures r.outcome.Authenticated? <==> r.client.Some?
    ensures r.outcome.Authenticated? ==> r.client == Some(r.outcome.client)
    ensures r.saved.Some? ==> w.refresh.RefreshReturned? || w.exchange.ExchangeReturned?
    ensures FlowRan(r.actions) ==> EndsWithFlow(r, FullFlow(cfg, w), 2)
    ensures !FlowRan(r.actions) <==> w.refresh.RefreshReturned? && "access_token" in w.refresh.tokens
  {
    var acts := [ReadCache, RefreshCall(cachedRefresh)];
    match w.refresh
    case RefreshRaised =>
      TraceAfterRefresh(acts, FullFlow(cfg, w).actions);
      After(acts, FullFlow(cfg, w))
    case RefreshReturned(tokens) =>
      var tokens' := KeptRefreshToken(tokens, cachedRefresh);
      var saved := SaveTokenCache(tokens', w.now, w.cacheWritable);
      if "access_token" in tokens then Success(Client(tokens'["access_token"]), acts, saved)
      else
        // the lookup raises inside the `try`, which falls through; nothing was saved
        TraceAfterRefresh(acts, FullFlow(cfg, w).actions);
        After(acts, FullFlow(cfg, w))
  }

  lemma TraceAfterRead(flow: seq<Action>)
    requires IsFullFlowTrace(flow)
    ensures ValidTrace([ReadCache] + flow)
  {
    assert ([ReadCache] + flow)[1..] == flow;
  }

  lemma TraceAfterRefresh(prior: seq<Action>, flow: seq<Action>)
    requires |prior| == 2 && prior[0] == ReadCache && prior[1].RefreshCall?
    requires IsFullFlowTrace(flow)
    ensures ValidTrace(prior + flow)
  {
    assert (prior + flow)[2..] == flow;
  }

  /**
    `authenticate`: the fast path on an existing client, else the cache, the
    refresh and the interactive flow in that order.
  */
  function Authenticate(cfg: Config, current: Option<Client>, w: World): (r: AuthResult)
    ensures current.Some? ==> r == AuthResult(Authenticated(current.value), [], None, current)
    ensures current.None? ==> |r.actions| > 0 && r.actions[0] == ReadCache
    ensures ValidTrace(r.actions)
    ensures r.outcome.Authenticated? <==> r.client.Some?
    ensures r.outcome.Authenticated? ==> r.client == Some(r.outcome.client)
    ensures r.saved.Some? ==> current.None? && (w.refresh.RefreshReturned? || w.exchange.ExchangeReturned?)
    ensures FlowRan(r.actions) ==> EndsWithFlow(r, FullFlow(cfg, w), FlowStart(r.actions))
  {
    if current.Some? then AuthResult(Authenticated(current.value), [], None, current)
    else
      var cached := LoadTokenCache(w.cacheFile, w.now);
      if cached.Some? && |cached.value| > 0 then FromCache(cfg, cached.value, w)
      else FlowAfterRead(cfg, w)
  }

  /** `get_client`: the current client, or "not authenticated". */
  function GetClient(current: Option<Client>): (r: Result<Client, AuthError>)
    ensures r.Ok? <==> current.Some?
    ensures r.Ok? ==> r.value == current.value
    ensures r.Err? ==> r.error == NotAuthenticated
  {
    match current
    case Some(c) => Ok(c)
    case None => Err(NotAuthenticated)
  }
}
