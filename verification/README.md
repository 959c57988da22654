# Spotify MCP server authentication, modelled in Dafny

This project models the authentication core of the Spotify MCP server, `SpotifyAuth` in
`src/spotify_mcp/auth.py` and the OAuth callback listener in `src/spotify_mcp/oauth_server.py`.
It covers these parts:

- **PKCE and nonce encoding** (`Encoding`, `Pkce`): the code verifier, which is the base64url
  encoding of 32 random bytes with the trailing `=` stripped; the S256 code challenge, which is the
  same encoding of the SHA-256 digest of the verifier's UTF-8 bytes; and the `state` nonce, which is
  16 random bytes in lower-case hexadecimal. These follow sections 4.1 and 4.2 of RFC 7636 and
  section 5 of RFC 4648. Python's padded `urlsafe_b64encode` and `str.rstrip('=')` are modelled as
  written. They are proved equal to the unpadded encoding, and a decoder is proved to invert it.
- **Token cache** (`JsonValues`, `TokenCache`): `_load_token_cache` classifies a file that may be
  missing, unreadable or parsed, at one integer clock reading `now`. `_save_token_cache` builds the
  six-field record, or nothing when the save fails. Python's truthiness and its `TypeError` on
  comparing non-numbers are modelled, because they decide which records loading keeps.
- **Callback listener** (`Callback`): `do_GET` is modelled as a pure function from the parsed path
  and query to a status, a page and an effect on the shared result and error fields. The listener
  loop is a method over the sequence of requests the server would receive. It is checked against a
  recursive reference definition `Serve`.
- **Coordinator** (`Coordinator`, `AuthProperties`): `authenticate` is a total function of the
  in-memory client and a `World`. The `World` holds the clock, the cache file, whether the cache is
  writable, the refresh and code-exchange replies, the random bytes, the digest function and the
  callback requests. The function returns the outcome, the ordered external actions, the record
  saved and the new in-memory client. `get_client` is modelled too.

Some behaviour of the code is easy to miss, and the model keeps it as written:

- Only the refresh path keeps the old refresh token when a response omits one (`auth.py:132-134`).
  `_save_token_cache` itself writes `''` for a missing refresh token (`auth.py:89`), and so does
  the full flow.
- The listener always binds port 8888 (`auth.py:177`), whatever port `redirect_uri` names.
- The cache file is opened for writing in place (`auth.py:94`), so a save is not atomic. The
  model only says whether a record was written.
- `_load_token_cache` treats a missing `expires_at` as 0 (`auth.py:69`). `authenticate` then indexes
  `expires_at` outside any `try` (`auth.py:118`). So a cached record with a refresh token but no
  `expires_at` raises a `KeyError` instead of being refreshed. The model keeps this behaviour as the
  error outcome `MissingKey("expires_at")`.
- On the callback path, an `error` parameter counts only when it is non-empty, because the code
  tests its truthiness (`oauth_server.py:36`).

The clock is an abstraction: one integer `now` stands for every reading a call makes. The code
reads the clock separately when loading (`auth.py:69`), when testing freshness (`auth.py:118`) and
when saving (`auth.py:91`). For integer `expires_at` values, `expires_at > t + 300` with a float `t`
is the same test as `expires_at > floor(t) + 300`, so each single test is exact at its own reading.
The readings themselves can differ, as "## Left out" records.

## Model

| member | source | states |
|---|---|---|
| Encoding.Base64UrlEncode | src/spotify_mcp/auth.py:52-53 | unpadded base64url output has ceil(4n/3) characters, all from `[A-Za-z0-9-_]` |
| Encoding.Base64UrlEncodePadded | src/spotify_mcp/auth.py:52 | `urlsafe_b64encode` output is whole four-character quanta of base64url characters and `=`, empty only for empty input |
| Encoding.PaddedIsUnpaddedPlusPadding | src/spotify_mcp/auth.py:52 | `urlsafe_b64encode` output is the unpadded encoding followed by `==`, `=` or nothing, by input length mod 3 |
| Encoding.RStrip | src/spotify_mcp/auth.py:53 | `rstrip(c)` returns the prefix that does not end in `c` and is followed only by `c` |
| Encoding.StripPaddingIsUnpadded | src/spotify_mcp/auth.py:52-53 | stripping `=` from the padded encoding gives exactly the unpadded encoding |
| Encoding.Base64UrlRoundTrip | src/spotify_mcp/auth.py:52-59 | decoding inverts the unpadded encoding for every byte string |
| Encoding.HexEncode | src/spotify_mcp/auth.py:158 | `token_hex` output has two lower-case hex digits per byte |
| Encoding.HexRoundTrip | src/spotify_mcp/auth.py:158 | decoding inverts the lower-case hex encoding for every byte string |
| Encoding.Utf8OfAscii | src/spotify_mcp/auth.py:57 | UTF-8 encoding of ASCII text is one byte per character, equal to its code point |
| Pkce.CodeVerifier | src/spotify_mcp/auth.py:50-53 | for any 32 bytes, the verifier has 43 base64url characters, no `=`, and decodes back to the bytes |
| Pkce.CodeChallenge | src/spotify_mcp/auth.py:55-59 | the challenge has 43 base64url characters, no `=`, and decodes to the 32-byte digest of the verifier's UTF-8 bytes |
| Pkce.StateNonce | src/spotify_mcp/auth.py:158 | the nonce has 32 lower-case hex digits and decodes back to the 16 random bytes |
| Pkce.VerifierInjective | src/spotify_mcp/auth.py:50-53 | distinct random inputs give distinct verifiers |
| Pkce.ChallengeDeterminesDigest | src/spotify_mcp/auth.py:55-59 | two verifiers share a challenge only if their digests agree |
| Pkce.VerifierBytesAreItsCharacters | src/spotify_mcp/auth.py:57 | the bytes hashed for the challenge are the verifier's 43 character codes |
| TokenCache.LoadTokenCache | src/spotify_mcp/auth.py:61-78 | absence for a missing, unreadable or non-object file or an `expires_at` that cannot be compared; otherwise the object is kept iff `expires_at` (0 when missing) > now + 300 or the refresh token is truthy, and the object is never altered |
| TokenCache.SaveTokenCache | src/spotify_mcp/auth.py:80-98 | a record is written iff the cache is writable, the four required fields are present and `expires_in` is numeric; it copies those fields, defaults `refresh_token` to `''` and sets `expires_at = now + expires_in`; failure is never raised |
| TokenCache.SaveThenLoad | src/spotify_mcp/auth.py:61-98 | loading what was just saved gives back the saved object iff `expires_in` > 300 or the refresh token is truthy, with access token, refresh token and scope unchanged |
| TokenCache.SaveIgnoresResponseExpiry | src/spotify_mcp/auth.py:85-92 | an `expires_at` in the token response does not change what is saved |
| TokenCache.FreshnessBoundary | src/spotify_mcp/auth.py:69 | 300 seconds left is not fresh and 301 seconds is fresh |
| TokenCache.StaleLoadedRecordHasRefreshToken | src/spotify_mcp/auth.py:68-74 | at one instant, a loaded record that fails the freshness test carries a truthy refresh token |
| Callback.HandleGet | src/spotify_mcp/oauth_server.py:28-89 | another path gets 404 with no effect; on `/callback` a non-empty `error` wins with 400 and that error; with no such error, non-empty first values of `code` and `state` give 200 and record exactly that pair, and a result is recorded only then; every `/callback` request records something |
| Callback.FirstValue | src/spotify_mcp/oauth_server.py:35-53 | `query_params.get(key, [None])[0]` is present iff the key is, and is then its first value |
| Callback.MissingCodeOrStateRejected | src/spotify_mcp/oauth_server.py:52-69 | on `/callback` without an error, a missing or empty `code` or `state` gives 400 and the error "Missing code or state" |
| Callback.Serve | src/spotify_mcp/oauth_server.py:113-114 | the reference run waits forever iff no request is terminal |
| Callback.ServeFirstTerminal | src/spotify_mcp/oauth_server.py:113-122 | the first terminal request alone decides the run; earlier 404 requests change nothing |
| Callback.AwaitCallback | src/spotify_mcp/oauth_server.py:92-122 | after resetting both fields, the loop stops exactly after the first terminal request; it raises "OAuth error: " plus the recorded error or returns the recorded result; it agrees with `Serve`; the "OAuth callback failed" branch is unreachable |
| Coordinator.AuthParams | src/spotify_mcp/auth.py:160-168 | the authorization parameters carry the client id, `response_type=code`, the redirect URI, `code_challenge_method=S256`, the challenge, the nonce as `state` and the space-joined scopes |
| Coordinator.SplitJoinSpaces | src/spotify_mcp/auth.py:167 | `' '.join(scopes)` loses nothing: for space-free scopes, splitting the joined string at spaces gives the scopes back |
| Coordinator.FullFlow | src/spotify_mcp/auth.py:153-200 | the flow opens the browser with the PKCE parameters and listens once on 8888; a listener that never gets a terminal request leaves the call waiting; a callback error fails with "OAuth error: " plus the error; a `state` unequal to the nonce fails with a mismatch and saves nothing; otherwise the code is exchanged with the verifier; a raising exchange fails and saves nothing; a returned response is saved as `_save_token_cache` saves it, and the client uses its access token, or the call fails with a `KeyError` when it has none |
| Coordinator.FromRefresh | src/spotify_mcp/auth.py:119-145 | a stale record is refreshed exactly once, first after the cache read; the interactive flow follows exactly when the refresh raises or returns no access token, and the call then ends as that flow ends |
| Coordinator.KeptRefreshToken | src/spotify_mcp/auth.py:132-134 | the refreshed response keeps its own refresh token, else gets the cached one; every other key is unchanged and none is added |
| Coordinator.FromCache | src/spotify_mcp/auth.py:116-151 | a cached record leads to a valid action trace; whenever the interactive flow runs, the call ends as that flow ends |
| Coordinator.Authenticate | src/spotify_mcp/auth.py:100-200 | an existing client is returned with no action and no save; otherwise the cache is read first; every trace is cache read, at most one refresh, then at most one interactive flow; a client is kept iff authentication succeeded |
| Coordinator.GetClient | src/spotify_mcp/auth.py:202-214 | returns the client iff one is set, else the "not authenticated" error |
| AuthProperties.FreshCacheUsesCachedToken | src/spotify_mcp/auth.py:146-151 | a fresh cached record yields a client on its access token with only the cache read and nothing saved |
| AuthProperties.StaleCacheRefreshedOnce | src/spotify_mcp/auth.py:118-140 | a stale record triggers exactly one refresh; on success the client uses the new token and the saved record keeps the cached refresh token when the response omits it |
| AuthProperties.RefreshFailureFallsBackToFullFlow | src/spotify_mcp/auth.py:142-145 | a refresh that raises is followed by the interactive flow, whose end is the call's end |
| AuthProperties.MissingExpiryRaises | src/spotify_mcp/auth.py:118 | a kept record with a refresh token and no `expires_at` makes the call fail with a `KeyError` for `expires_at` |
| AuthProperties.NoCacheStartsFullFlow | src/spotify_mcp/auth.py:153-177 | without a usable cache the browser is opened with the nonce as `state` and exactly one listener runs, on port 8888 |
| AuthProperties.AtMostOneRefreshAndOneListener | src/spotify_mcp/auth.py:110-177 | in any call, no refresh follows a refresh, and no listener or refresh follows a listener |
| AuthProperties.FlowStepsOnlyInFlow | src/spotify_mcp/auth.py:153-194 | browser, listener and code exchange actions occur only inside the interactive flow, with the exchange as its third step |
| AuthProperties.ExchangeOnlyAfterStateCheck | src/spotify_mcp/auth.py:179-194 | a code is exchanged only when the callback's `state` equals the nonce, and with the verifier |
| AuthProperties.StateMismatchAbortsBeforeExchange | src/spotify_mcp/auth.py:179-180 | a callback `state` different from the nonce means no exchange, and once the flow runs the call fails with a state mismatch and saves nothing |
| AuthProperties.AuthenticatedClientIsKept | src/spotify_mcp/auth.py:110-111 | after a successful call, the next call takes the fast path and `get_client` returns the same client |
| AuthProperties.FailedCallLeavesNoClient | src/spotify_mcp/auth.py:212-214 | after an unsuccessful call from no client, `get_client` raises "not authenticated" |
| AuthProperties.ExampleAuthorizationUrl | src/spotify_mcp/auth.py:160-170 | for client id "abc123", scope "user-read-email" and no cache, the URL parameters hold `client_id=abc123`, `code_challenge_method=S256`, `response_type=code`, `scope=user-read-email` and the nonce as `state` |

## Left out

- `src/spotify_mcp/server.py`: MCP tool dispatch and pass-through calls to the Spotify API, which are glue outside the authentication core.
- Binding the listener (`oauth_server.py:108`): `socketserver.TCPServer` raises `OSError` when port 8888 is taken, and that exception leaves `authenticate` uncaught (`auth.py:177`). The model assumes the bind succeeds and has no outcome for this failure.
- Sockets and `socketserver.TCPServer`: the listener works on a given sequence of already-parsed requests. Running out of requests stands for the real server blocking forever. That case is the outcome `Waiting`, or `WaitingForCallback` for the whole call.
- `urlparse` and `parse_qs`: the path and the query map, with every key holding at least one value, are inputs. Percent-decoding and the dropping of blank values happen before the model.
- `urlencode` and the URL string: only the ordered parameter list is modelled, not its percent-encoding.
- `webbrowser.open` and every `print`: the browser launch is an action with no effect, and logging is omitted.
- HTML page bodies: a page is identified by its kind and, for the failure page, its error text.
- Disk and JSON I/O (`Path.exists`, `open`, `json.load`, `json.dump`, `mkdir`): the file is given as missing, unreadable or parsed. A save is one flag saying whether the directory and the write succeed. A partly written file is not modelled.
- Separate clock readings: the load (`auth.py:69`), the freshness test (`auth.py:118`) and the save (`auth.py:91`) read the clock at different instants, and in the full flow the save comes after the browser round trip. The model uses one `now` for all three, so the saved `expires_at` is not tied to the later reading.
- JSON floating-point numbers and the float `time.time()`: numbers are integers, and a boolean counts as 0 or 1 as in Python.
- spotipy's `refresh_access_token` and `_request_access_token` (the network exchanges of sections 6 and 4.1.3 of RFC 6749): each is an oracle that raises or returns a token response. Constructing `SpotifyOAuth` and `spotipy.Spotify` is assumed not to raise.
- `secrets.token_bytes`, `secrets.token_hex` and `hashlib.sha256`: the random bytes are inputs. The digest is any function that returns 32 bytes, so no claim depends on SHA-256's internals.
- The class-level `result` and `error` fields shared by the handler and the loop: they are explicit loop state. The source has no threads or locks, so concurrent calls are not modelled.
- `SpotifyAuth.__init__`: the cache directory and path are configuration that the model does not need, because the cache file is given directly.
