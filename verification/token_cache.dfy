/**
  The on-disk token cache (`token-cache.json`): classifying what loading it
  yields, and building the record that saving writes. Disk and JSON I/O are
  outside the model: the file is given as already read and parsed, and the
  write is a flag saying whether creating the directory and writing succeed.
*/
module TokenCache {
  import opened Wrappers
  import opened JsonValues

  /** Seconds before expiry at which a cached access token is no longer used. */
  const FreshnessBuffer: int := 300

  /** What reading and parsing the cache file gives. */
  datatype FileContents =
    | Missing             // the file does not exist
    | Unreadable          // opening or parsing it raises
    | Parsed(value: Json) // `json.load` returned this value

  /** `expires_at > now + 300`: the access token may still be used. */
  predicate IsFresh(expiresAt: int, now: int) {
    expiresAt > now + FreshnessBuffer
  }

  /** The expiry loading compares: a missing `expires_at` counts as 0; `None` if it is not a number. */
  function LoadedExpiry(m: map<string, Json>): Option<int> {
    NumericValue(GetOr(m, "expires_at", JNum(0)))
  }

  /** The record carries a refresh token Python treats as present (truthy). */
  predicate HasRefreshToken(m: map<string, Json>) {
    "refresh_token" in m && Truthy(m["refresh_token"])
  }

  /**
    Loading keeps a record whose access token is fresh, or which can still be
    refreshed; every failure (missing file, unreadable or malformed content,
    a top-level value that is not an object, an `expires_at` that cannot be
    compared) yields absence instead of an error.
  */
  function LoadTokenCache(file: FileContents, now: int): (r: Option<map<string, Json>>)
    ensures r.Some? ==> file == Parsed(JObject(r.value))
    ensures !(file.Parsed? && file.value.JObject?) ==> r == None
    ensures file.Parsed? && file.value.JObject? ==>
              var m := file.value.fields;
              (r.Some? <==> LoadedExpiry(m).Some? && (IsFresh(LoadedExpiry(m).value, now) || HasRefreshToken(m)))
  {
    match file
    case Missing => None
    case Unreadable => None
    case Parsed(v) =>
      if !v.JObject? then None  // `.get` on a non-object raises, and the raise is caught
      else
        match NumericValue(GetOr(v.fields, "expires_at", JNum(0)))
        case None => None       // comparing a non-number raises, and the raise is caught
        case Some(e) =>
          if e > now + FreshnessBuffer then Some(v.fields)
          else if "refresh_token" in v.fields && Truthy(v.fields["refresh_token"]) then Some(v.fields)
          else None
  }

  /** The six fields written to the cache file. */
  datatype TokenRecord = TokenRecord(
    accessToken: Json,
    tokenType: Json,
    expiresIn: Json,
    refreshToken: Json,
    scope: Json,
    expiresAt: int)
  {
    /** The JSON object written for this record. */
    function ToObject(): map<string, Json> {
      map[
        "access_token" := accessToken,
        "token_type" := tokenType,
        "expires_in" := expiresIn,
        "refresh_token" := refreshToken,
        "scope" := scope,
        "expires_at" := JNum(expiresAt)]
    }
  }

  /** The keys the save indexes directly, so that a missing one makes the save fail. */
  predicate HasRequiredFields(info: map<string, Json>) {
    && "access_token" in info
    && "token_type" in info
    && "expires_in" in info
    && "scope" in info
  }

  /**
    The record a save writes, or `None` when nothing is written: the directory
    or file cannot be written, a required field is missing, or `expires_in`
    is not a number. Failure is never raised to the caller. The expiry is
    recomputed from the clock, whatever `expires_at` the response carries.
  */
  function SaveTokenCache(info: map<string, Json>, now: int, writable: bool): (saved: Option<TokenRecord>)
    ensures saved.Some? <==> writable && HasRequiredFields(info) && NumericValue(info["expires_in"]).Some?
    ensures saved.Some? ==>
              && saved.value.accessToken == info["access_token"]
              && saved.value.tokenType == info["token_type"]
              && saved.value.expiresIn == info["expires_in"]
              && saved.value.scope == info["scope"]
              && saved.value.refreshToken == GetOr(info, "refresh_token", JStr(""))
              && saved.value.expiresAt == now + NumericValue(info["expires_in"]).value
  {
    if !writable || !HasRequiredFields(info) then None
    else
      match NumericValue(info["expires_in"])
      case None => None  // adding a non-number to the clock raises, and the raise is caught
      case Some(seconds) =>
        Some(TokenRecord(
          info["access_token"],
          info["token_type"],
          info["expires_in"],
          GetOr(info, "refresh_token", JStr("")),
          info["scope"],
          now + seconds))
  }

  /**
    Saving and then loading at the same instant gives back the saved object,
    unless its token lives 300 seconds or less and it has no refresh token;
    the access token, refresh token and scope come back as the response gave them.
  */
  lemma SaveThenLoad(info: map<string, Json>, now: int)
    requires SaveTokenCache(info, now, true).Some?
    ensures var rec := SaveTokenCache(info, now, true).value;
            var loaded := LoadTokenCache(Parsed(JObject(rec.ToObject())), now);
            && (loaded.Some? <==> NumericValue(info["expires_in"]).value > FreshnessBuffer || Truthy(rec.refreshToken))
            && (loaded.Some? ==>
                  && loaded.value == rec.ToObject()
                  && loaded.value["access_token"] == info["access_token"]
                  && loaded.value["refresh_token"] == GetOr(info, "refresh_token", JStr(""))
                  && loaded.value["scope"] == info["scope"]
                  && loaded.value["expires_at"] == JNum(now + NumericValue(info["expires_in"]).value))
  {
    var rec := SaveTokenCache(info, now, true).value;
    var m := rec.ToObject();
    assert GetOr(m, "expires_at", JNum(0)) == JNum(rec.expiresAt);
    assert "refresh_token" in m && m["refresh_token"] == rec.refreshToken;
  }

  /** An `expires_at` in the response has no influence on what is saved. */
  lemma SaveIgnoresResponseExpiry(info: map<string, Json>, now: int, writable: bool, stale: Json)
    ensures SaveTokenCache(info["expires_at" := stale], now, writable) == SaveTokenCache(info, now, writable)
  {
    var info' := info["expires_at" := stale];
    assert HasRequiredFields(info') == HasRequiredFields(info);
    assert GetOr(info', "refresh_token", JStr("")) == GetOr(info, "refresh_token", JStr(""));
  }

  /** The freshness test is strict: 300 seconds left is not fresh, 301 is. */
  lemma FreshnessBoundary(now: int)
    ensures !IsFresh(now + 300, now)
    ensures IsFresh(now + 301, now)
  {
  }

  /**
    At one instant, a loaded record whose `expires_at` fails the freshness
    test (the coordinator's `expires_at <= now + 300`) was kept for its
    refresh token, so the coordinator can refresh it.
  */
  lemma StaleLoadedRecordHasRefreshToken(file: FileContents, now: int, e: int)
    requires LoadTokenCache(file, now).Some?
    requires var m := LoadTokenCache(file, now).value;
             "expires_at" in m && NumericValue(m["expires_at"]) == Some(e)
    requires !IsFresh(e, now)
    ensures HasRefreshToken(LoadTokenCache(file, now).value)
  {
  }
}
