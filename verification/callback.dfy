/**
  The loopback OAuth callback listener: how one GET request is classified,
  and the one-shot loop that serves requests until the first one that
  records a result or an error. Sockets are outside the model: the requests
  the listener would receive are given as a sequence, already split by
  `urlparse` into a path and the `parse_qs` query.
*/
module Callback {
  import opened Wrappers

  /** The only path the listener answers. */
  const CallbackPath := "/callback"

  /** The error recorded when `code` or `state` is missing. */
  const MissingCodeOrState := "Missing code or state"

  /** The prefix of the message raised when the callback reports an error. */
  const OAuthErrorPrefix := "OAuth error: "

  /** The output of `parse_qs`: every key present has at least one value. */
  type Query = q: map<string, seq<string>> | forall k :: k in q ==> |q[k]| > 0 witness map[]

  datatype Request = Request(path: string, query: Query)

  /** The authorization code and the `state` the authorization server sent back. */
  datatype CallbackResult = CallbackResult(code: string, state: string)

  /** The HTML page sent with a response. */
  datatype Page = FailurePage(error: string) | MissingParamsPage | SuccessPage | NotFoundPage

  /** What handling a request does to the listener's shared result and error fields. */
  datatype Effect = NoEffect | RecordError(error: string) | RecordResult(result: CallbackResult)

  datatype Response = Response(status: int, page: Page, effect: Effect)

  /** `query_params.get(key, [None])[0]`: the first value of a parameter, if present. */
  function FirstValue(q: Query, key: string): (v: Option<string>)
    ensures v.Some? <==> key in q
    ensures v.Some? ==> v.value == q[key][0]
  {
    if key in q then Some(q[key][0]) else None
  }

  /** A Python string is truthy when it is not empty. */
  predicate Present(v: Option<string>) {
    v.Some? && v.value != ""
  }

  /** Handles one GET request. */
  function HandleGet(req: Request): (r: Response)
    ensures req.path != CallbackPath <==> r.status == 404
    ensures req.path != CallbackPath ==> r.effect == NoEffect
    ensures req.path == CallbackPath ==> r.effect != NoEffect
    ensures r.status == 200 <==> r.effect.RecordResult?
    ensures r.effect.RecordError? ==> r.status == 400 && r.effect.error != ""
    ensures req.path == CallbackPath && Present(FirstValue(req.query, "error")) ==>
              r == Response(400, FailurePage(req.query["error"][0]), RecordError(req.query["error"][0]))
    ensures req.path == CallbackPath && !Present(FirstValue(req.query, "error"))
            && Present(FirstValue(req.query, "code")) && Present(FirstValue(req.query, "state")) ==>
              r == Response(200, SuccessPage, RecordResult(CallbackResult(req.query["code"][0], req.query["state"][0])))
    ensures r.effect.RecordResult? ==>
              && "code" in req.query && "state" in req.query
              && !Present(FirstValue(req.query, "error"))
              && r.effect.result == CallbackResult(req.query["code"][0], req.query["state"][0])
              && r.effect.result.code != "" && r.effect.result.state != ""
  {
    if req.path != CallbackPath then
      Response(404, NotFoundPage, NoEffect)
    else
      var error := FirstValue(req.query, "error");
      if Present(error) then
        Response(400, FailurePage(error.value), RecordError(error.value))
      else
        var code := FirstValue(req.query, "code");
        var state := FirstValue(req.query, "state");
        if !Present(code) || !Present(state) then
          Response(400, MissingParamsPage, RecordError(MissingCodeOrState))
        else
          Response(200, SuccessPage, RecordResult(CallbackResult(code.value, state.value)))
  }

  /** A request that ends the wait: one to the callback path, which records a result or an error. */
  predicate IsTerminal(req: Request) {
    req.path == CallbackPath
  }

  /** On the callback path, a missing or empty `code` or `state` (and no error) is answered 400 "Missing code or state". */
  lemma MissingCodeOrStateRejected(req: Request)
    requires req.path == CallbackPath && !Present(FirstValue(req.query, "error"))
    requires !Present(FirstValue(req.query, "code")) || !Present(FirstValue(req.query, "state"))
    ensures HandleGet(req) == Response(400, MissingParamsPage, RecordError(MissingCodeOrState))
  {
  }

  /** The result and error fields shared between the handler and the loop. */
  datatype ListenerState = ListenerState(result: Option<CallbackResult>, error: Option<string>)

  function Apply(st: ListenerState, e: Effect): ListenerState {
    match e
    case NoEffect => st
    case RecordError(msg) => st.(error := Some(msg))
    case RecordResult(res) => st.(result := Some(res))
  }

  /** How a run of the listener ends. */
  datatype ListenerOutcome =
    | Waiting                 // no terminal request arrived: the real listener keeps blocking
    | Raised(message: string) // the callback reported an error
    | Returned(result: CallbackResult)

  /**
    Reference definition of a listener run: skip every non-terminal request;
    the first terminal one decides the outcome.
  */
  function Serve(requests: seq<Request>): (r: ListenerOutcome)
    ensures r.Waiting? <==> forall i :: 0 <= i < |requests| ==> !IsTerminal(requests[i])
    decreases |requests|
  {
    if |requests| == 0 then Waiting
    else
      match HandleGet(requests[0]).effect
      case NoEffect => Serve(requests[1..])
      case RecordError(e) => Raised(OAuthErrorPrefix + e)
      case RecordResult(res) => Returned(res)
  }

  /** The outcome the first terminal request `req` produces. */
  function TerminalOutcome(req: Request): ListenerOutcome
    requires IsTerminal(req)
  {
    match HandleGet(req).effect
    case RecordError(e) => Raised(OAuthErrorPrefix + e)
    case RecordResult(res) => Returned(res)
  }

  /** When request `k` is the first terminal one, it alone decides the run. */
  lemma {:induction false} ServeFirstTerminal(requests: seq<Request>, k: nat)
    requires k < |requests| && IsTerminal(requests[k])
    requires forall i :: 0 <= i < k ==> !IsTerminal(requests[i])
    ensures Serve(requests) == TerminalOutcome(requests[k])
    decreases k
  {
    if k > 0 {
      assert !IsTerminal(requests[0]);
      ServeFirstTerminal(requests[1..], k - 1);
    }
  }

  /**
    What the listener loop knows after serving `served` requests: while both
    fields are empty, every request so far was a 404; once one is set, the
    last request served was the first terminal one, and it set that field.
  */
  predicate ServedSoFar(requests: seq<Request>, st: ListenerState, served: nat) {
    && served <= |requests|
    && (st.error.Some? ==> st.result.None?)
    && (st.error.None? && st.result.None? ==> forall i :: 0 <= i < served ==> !IsTerminal(requests[i]))
    && (st.error.Some? || st.result.Some? ==>
          && served > 0
          && (forall i :: 0 <= i < served - 1 ==> !IsTerminal(requests[i]))
          && IsTerminal(requests[served - 1])
          && HandleGet(requests[served - 1]).effect
             == (if st.error.Some? then RecordError(st.error.value) else RecordResult(st.result.value)))
  }

  /** Serving one more request while both fields are empty keeps `ServedSoFar`. */
  lemma ServeOne(requests: seq<Request>, st: ListenerState, served: nat)
    requires ServedSoFar(requests, st, served) && st.result.None? && st.error.None?
    requires served < |requests|
    ensures ServedSoFar(requests, Apply(st, HandleGet(requests[served]).effect), served + 1)
  {
    assert HandleGet(requests[served]).effect == NoEffect <==> !IsTerminal(requests[served]);
  }

  /**
    The listener loop: reset the shared fields, serve one request at a time
    while neither a result nor an error is recorded, then raise on an error
    or return the result. `served` counts the requests handled. Running out
    of requests stands for blocking forever.
  */
  method AwaitCallback(requests: seq<Request>) returns (outcome: ListenerOutcome, served: nat)
    ensures served <= |requests|
    ensures forall i :: 0 <= i < served - 1 ==> !IsTerminal(requests[i])
    ensures outcome.Waiting? ==> served == |requests| && forall i :: 0 <= i < |requests| ==> !IsTerminal(requests[i])
    ensures !outcome.Waiting? ==> served > 0 && IsTerminal(requests[served - 1])
                                  && outcome == TerminalOutcome(requests[served - 1])
    ensures outcome == Serve(requests)
  {
    var st := ListenerState(None, None);
    served := 0;
    while st.result.None? && st.error.None?
      invariant ServedSoFar(requests, st, served)
      decreases |requests| - served
    {
      if served == |requests| {
        return Waiting, served;
      }
      var response := HandleGet(requests[served]);
      ServeOne(requests, st, served);
      st := Apply(st, response.effect);
      served := served + 1;
    }
    ServeFirstTerminal(requests, served - 1);
    if st.error.Some? && st.error.value != "" {
      outcome := Raised(OAuthErrorPrefix + st.error.value);
    } else {
      // The source raises "OAuth callback failed" when no result is recorded
      // here; the loop's exit condition makes that branch unreachable.
      assert st.result.Some?;
      outcome := Returned(st.result.value);
    }
  }
}
