/**
 * The parts of `loadBundleFromServer.js` that carry logic: the bundle URL, the
 * request-id filtering of `asyncRequest`, the content-type gate in front of
 * evaluation, and the `pendingRequests` counter behind the loading indicator.
 * The native networking module, `eval`, `HMRClient` and `LoadingView` appear
 * only as events and effects.
 */
module LoadBundleFromServer {
  import opened Wrappers
  import opened Utf16

  // ---------------------------------------------------------------------------
  // buildUrlForBundle

  /** `serverUrl.replace(/\/+$/, '') + '/' + bundlePathAndQuery.replace(/^\/+/, '')`. */
  function BuildUrlForBundle(serverUrl: JsString, bundlePathAndQuery: JsString): (r: JsString)
    // the server part is the server URL less only trailing slashes, and ends without one
    ensures var k := |StripTrailing(serverUrl, IsSlash)|;
            && k < |r| <= k + 1 + |bundlePathAndQuery| && r[..k] == serverUrl[..k]
            && (forall i :: k <= i < |serverUrl| ==> serverUrl[i] == SLASH)
            && (k == 0 || r[k - 1] != SLASH)
    // exactly one slash at the join
            && r[k] == SLASH
            && (k + 1 == |r| || r[k + 1] != SLASH)
    // the rest is the path less only leading slashes
            && r[k + 1..] == bundlePathAndQuery[|bundlePathAndQuery| - (|r| - k - 1)..]
            && (forall i :: 0 <= i < |bundlePathAndQuery| - (|r| - k - 1) ==> bundlePathAndQuery[i] == SLASH)
  {
    StripTrailing(serverUrl, IsSlash) + [SLASH] + StripLeading(bundlePathAndQuery, IsSlash)
  }

  /** `n` slashes. */
  function Slashes(n: nat): (r: JsString)
    ensures |r| == n && forall i :: 0 <= i < n ==> r[i] == SLASH
  {
    seq(n, _ => SLASH)
  }

  lemma {:induction false} StripTrailingSlashes(s: JsString, n: nat)
    ensures StripTrailing(s + Slashes(n), IsSlash) == StripTrailing(s, IsSlash)
    decreases n
  {
    if n > 0 {
      assert (s + Slashes(n))[..|s + Slashes(n)| - 1] == s + Slashes(n - 1);
      StripTrailingSlashes(s, n - 1);
    } else {
      assert s + Slashes(n) == s;
    }
  }

  lemma {:induction false} StripLeadingSlashes(s: JsString, n: nat)
    ensures StripLeading(Slashes(n) + s, IsSlash) == StripLeading(s, IsSlash)
    decreases n
  {
    if n > 0 {
      assert (Slashes(n) + s)[1..] == Slashes(n - 1) + s;
      StripLeadingSlashes(s, n - 1);
    } else {
      assert Slashes(n) + s == s;
    }
  }

  /** However many slashes end the server URL or start the path, the URL is the same; and a URL
      built from the result's own two halves is the result again. */
  lemma ExtraSlashesDoNotMatter(serverUrl: JsString, bundlePathAndQuery: JsString, n: nat, m: nat)
    ensures BuildUrlForBundle(serverUrl + Slashes(n), Slashes(m) + bundlePathAndQuery)
              == BuildUrlForBundle(serverUrl, bundlePathAndQuery)
    ensures BuildUrlForBundle(StripTrailing(serverUrl, IsSlash), StripLeading(bundlePathAndQuery, IsSlash))
              == BuildUrlForBundle(serverUrl, bundlePathAndQuery)
  {
    StripTrailingSlashes(serverUrl, n);
    StripLeadingSlashes(bundlePathAndQuery, m);
    StripTrailingIdempotent(serverUrl, IsSlash);
    StripLeadingIdempotent(bundlePathAndQuery, IsSlash);
  }

  // ---------------------------------------------------------------------------
  // asyncRequest

  /** What the networking module emits, in order; `IdAssigned` is the `sendRequest` callback. */
  datatype NetEvent =
    | IdAssigned(id: int)
    | DataReceived(requestId: int, text: JsString)
    | ResponseReceived(requestId: int, headers: map<JsString, JsString>)
    | Completed(requestId: int, error: Option<JsString>)

  /** How the request's promise settles; `null` body or headers are `None`. */
  datatype Settlement =
    | Resolved(body: Option<JsString>, headers: Option<map<JsString, JsString>>)
    | Failed(error: JsString)

  /** The closure state of one `asyncRequest`: `id`, `responseText`, `headers`, and the settlement. */
  datatype Listener = Listener(id: Option<int>, text: Option<JsString>, headers: Option<map<JsString, JsString>>,
                               settled: Option<Settlement>)

  const Idle := Listener(None, None, None, None)

  /** The event's request id, for the three listened-to events. */
  function RequestIdOf(e: NetEvent): Option<int> {
    if e.IdAssigned? then None else Some(e.requestId)
  }

  /** One event through the three listeners: an event is heard only when its request id is the
      one assigned; a completion with a (non-empty) error rejects, any other resolves with what
      was received so far. Once the promise has settled nothing changes it. */
  function Hear(l: Listener, e: NetEvent): (r: Listener)
    ensures l.settled.Some? ==> r == l
    ensures !e.IdAssigned? && RequestIdOf(e) != l.id ==> r == l
    ensures l.settled.None? && e.Completed? && Some(e.requestId) == l.id ==>
              r.settled == Some(if e.error.Some? && e.error.value != [] then Failed(e.error.value) else Resolved(l.text, l.headers))
    // what an unsettled request records: the id it is given, its latest text and headers
    ensures l.settled.None? && e.IdAssigned? ==> r == l.(id := Some(e.id))
    ensures l.settled.None? && e.DataReceived? && l.id == Some(e.requestId) ==> r == l.(text := Some(e.text))
    ensures l.settled.None? && e.ResponseReceived? && l.id == Some(e.requestId) ==> r == l.(headers := Some(e.headers))
  {
    if l.settled.Some? then l
    else
      match e
      case IdAssigned(id) => l.(id := Some(id))
      case DataReceived(rid, t) => if l.id == Some(rid) then l.(text := Some(t)) else l
      case ResponseReceived(rid, h) => if l.id == Some(rid) then l.(headers := Some(h)) else l
      case Completed(rid, err) =>
        if l.id == Some(rid) then
          l.(settled := Some(if err.Some? && err.value != [] then Failed(err.value) else Resolved(l.text, l.headers)))
        else l
  }

  function ListenFrom(l: Listener, events: seq<NetEvent>): Listener
    decreases |events|
  {
    if events == [] then l else ListenFrom(Hear(l, events[0]), events[1..])
  }

  /** The events that carry the given request id. */
  function Own(events: seq<NetEvent>, id: int): (r: seq<NetEvent>)
    ensures forall e :: e in r <==> e in events && RequestIdOf(e) == Some(id)
    ensures |events| == 1 ==> r == (if RequestIdOf(events[0]) == Some(id) then events else [])
  {
    if events == [] then []
    else (if RequestIdOf(events[0]) == Some(id) then [events[0]] else []) + Own(events[1..], id)
  }

  /** Selecting distributes over concatenation: with the one-event case, the own events keep
      their order and multiplicity. */
  lemma {:induction false} OwnAppend(a: seq<NetEvent>, b: seq<NetEvent>, id: int)
    ensures Own(a + b, id) == Own(a, id) + Own(b, id)
    decreases |a|
  {
    if a == [] {
      assert a + b == b;
    } else {
      assert (a + b)[1..] == a[1..] + b;
      OwnAppend(a[1..], b, id);
    }
  }

  predicate NoAssignment(events: seq<NetEvent>) {
    forall i :: 0 <= i < |events| ==> !events[i].IdAssigned?
  }

  /** Once the id is assigned, events for other requests make no difference. */
  lemma {:induction false} ForeignEventsAreIgnored(l: Listener, events: seq<NetEvent>, id: int)
    requires l.id == Some(id) && NoAssignment(events)
    ensures ListenFrom(l, events) == ListenFrom(l, Own(events, id))
    decreases |events|
  {
    if events != [] {
      var l' := Hear(l, events[0]);
      assert l'.id == Some(id);
      assert NoAssignment(events[1..]) by {
        forall i | 0 <= i < |events[1..]| ensures !events[1..][i].IdAssigned? {
          assert events[1..][i] == events[i + 1];
        }
      }
      ForeignEventsAreIgnored(l', events[1..], id);
      if RequestIdOf(events[0]) == Some(id) {
        assert Own(events, id) == [events[0]] + Own(events[1..], id);
        assert (Own(events, id))[1..] == Own(events[1..], id);
      } else {
        assert l' == l;
        assert Own(events, id) == Own(events[1..], id);
      }
    }
  }

  /** Before the id is assigned nothing is heard. */
  lemma {:induction false} EventsBeforeAssignmentAreIgnored(l: Listener, events: seq<NetEvent>)
    requires l.id.None? && NoAssignment(events)
    ensures ListenFrom(l, events) == l
    decreases |events|
  {
    if events != [] {
      assert NoAssignment(events[1..]) by {
        forall i | 0 <= i < |events[1..]| ensures !events[1..][i].IdAssigned? {
          assert events[1..][i] == events[i + 1];
        }
      }
      EventsBeforeAssignmentAreIgnored(l, events[1..]);
    }
  }

  /** The first completion of the request settles it for good. */
  lemma {:induction false} FirstSettlementStands(l: Listener, events: seq<NetEvent>)
    requires l.settled.Some?
    ensures ListenFrom(l, events) == l
    decreases |events|
  {
    if events != [] {
      FirstSettlementStands(l, events[1..]);
    }
  }

  // ---------------------------------------------------------------------------
  // The default export

  /** The value `JSON.parse(body)` yields, as far as `.message` can tell: `Unparsable` when it
      throws, `JsonObject` with its message when that is truthy. */
  datatype JsonValue = Unparsable | JsonNull | JsonObject(message: Option<JsString>) | JsonOther

  datatype LoadError =
    | RequestFailed(error: JsString)
    | TypeError
    | SyntaxError
    | ServerError(message: JsString)
    | EvalFailed(error: JsString)

  datatype LoaderEffect =
    | ShowDownloading
    | Send(url: JsString)
    | RegisterBundle(url: JsString)
    | EvalWithSourceUrl(body: Option<JsString>, url: JsString)
    | Eval(body: Option<JsString>)

  /** What the loader depends on: the dev server URL, `JSON.parse`, whether
      `globalEvalWithSourceUrl` exists, and what evaluating a body throws. */
  datatype Runtime = Runtime(
    serverUrl: JsString,
    parseJson: JsString -> JsonValue,
    hasGlobalEval: bool,
    evalError: Option<JsString> -> Option<JsString>)

  const ContentTypeKey: JsString := Lit("Content-Type")
  const JsonMediaType: JsString := Lit("application/json")

  /** The fallback message. */
  function UnknownError(bundlePathAndQuery: JsString): JsString {
    Lit("Unknown error fetching '") + bundlePathAndQuery + Lit("'")
  }

  /** `headers['Content-Type'] != null && headers['Content-Type'].indexOf('application/json') >= 0`. */
  predicate IsJsonResponse(headers: map<JsString, JsString>) {
    ContentTypeKey in headers && IndexOf(headers[ContentTypeKey], JsonMediaType) >= 0
  }

  /** The rejection a JSON response turns into: `JSON.parse(null)` is `null`, whose `.message`
      throws; a truthy message is used as is, anything else gives the fallback. */
  function JsonRejection(rt: Runtime, body: Option<JsString>, bundlePathAndQuery: JsString): (r: LoadError)
    // a missing body parses to `null`, and reading `.message` of `null` throws
    ensures body.None? ==> r == TypeError
    ensures body.Some? && rt.parseJson(body.value) == JsonNull ==> r == TypeError
    // a body that does not parse rethrows the parser's SyntaxError
    ensures body.Some? && rt.parseJson(body.value) == Unparsable ==> r == SyntaxError
    // a truthy message is the error
    ensures body.Some? && rt.parseJson(body.value).JsonObject? && rt.parseJson(body.value).message.Some?
              && rt.parseJson(body.value).message.value != [] ==>
              r == ServerError(rt.parseJson(body.value).message.value)
    // an object without a message, or with an empty one, and any other value give the fallback
    ensures body.Some? && rt.parseJson(body.value).JsonObject?
              && (rt.parseJson(body.value).message.None? || rt.parseJson(body.value).message.value == []) ==>
              r == ServerError(UnknownError(bundlePathAndQuery))
    ensures body.Some? && rt.parseJson(body.value) == JsonOther ==> r == ServerError(UnknownError(bundlePathAndQuery))
  {
    var value := if body.None? then JsonNull else rt.parseJson(body.value);
    match value
    case Unparsable => SyntaxError
    case JsonNull => TypeError
    case JsonObject(m) => ServerError(if m.Some? && m.value != [] then m.value else UnknownError(bundlePathAndQuery))
    case JsonOther => ServerError(UnknownError(bundlePathAndQuery))
  }

  /** The outcome of one load (`None` when the promise fulfils) and its effects in order. */
  datatype Load = Load(outcome: Option<LoadError>, effects: seq<LoaderEffect>)

  predicate Registers(effects: seq<LoaderEffect>) {
    exists i :: 0 <= i < |effects| && effects[i].RegisterBundle?
  }

  predicate Evaluates(effects: seq<LoaderEffect>) {
    exists i :: 0 <= i < |effects| && (effects[i].Eval? || effects[i].EvalWithSourceUrl?)
  }

  /** A response the gate lets through to evaluation: it resolved, with headers, and is not JSON. */
  predicate Admitted(response: Settlement) {
    response.Resolved? && response.headers.Some? && !IsJsonResponse(response.headers.value)
  }

  /** The default export, given how its request settles. */
  function LoadBundle(rt: Runtime, bundlePathAndQuery: JsString, response: Settlement): (r: Load)
    // the indicator is shown and the request sent before anything else
    ensures |r.effects| >= 2
    ensures r.effects[0] == ShowDownloading && r.effects[1] == Send(BuildUrlForBundle(rt.serverUrl, bundlePathAndQuery))
    // a JSON response is rejected, and is never registered nor evaluated
    ensures response.Resolved? && response.headers.Some? && IsJsonResponse(response.headers.value) ==>
              && r.outcome == Some(JsonRejection(rt, response.body, bundlePathAndQuery))
              && !Registers(r.effects) && !Evaluates(r.effects)
  {
    var url := BuildUrlForBundle(rt.serverUrl, bundlePathAndQuery);
    var start := [ShowDownloading, Send(url)];
    assert start == Start(url);
    match response
    case Failed(e) => Load(Some(RequestFailed(e)), start)
    case Resolved(body, headers) =>
      if headers.None? then Load(Some(TypeError), start)
      else if IsJsonResponse(headers.value) then Load(Some(JsonRejection(rt, body, bundlePathAndQuery)), start)
      else Evaluate(rt, url, body)
  }

  /** Only an admitted response is registered or evaluated: first registered with the hot-reload
      client, then evaluated; the load fulfils exactly when that evaluation does not throw. */
  lemma LoadBundleEvaluatesAdmitted(rt: Runtime, bundlePathAndQuery: JsString, response: Settlement)
    ensures var r := LoadBundle(rt, bundlePathAndQuery, response);
            Registers(r.effects) || Evaluates(r.effects) <==> Admitted(response)
    ensures var r := LoadBundle(rt, bundlePathAndQuery, response);
            var url := BuildUrlForBundle(rt.serverUrl, bundlePathAndQuery);
            Registers(r.effects) ==>
              && |r.effects| == 4
              && r.effects[2] == RegisterBundle(url)
              && r.effects[3] == (if rt.hasGlobalEval then EvalWithSourceUrl(response.body, url) else Eval(response.body))
    ensures LoadBundle(rt, bundlePathAndQuery, response).outcome.None? <==>
              Admitted(response) && rt.evalError(response.body).None?
  {
    var url := BuildUrlForBundle(rt.serverUrl, bundlePathAndQuery);
    if Admitted(response) {
      assert LoadBundle(rt, bundlePathAndQuery, response) == Evaluate(rt, url, response.body);
    } else {
      assert LoadBundle(rt, bundlePathAndQuery, response).effects == Start(url);
    }
  }

  /** Showing the indicator and sending the request: nothing is registered or evaluated yet. */
  function Start(url: JsString): (r: seq<LoaderEffect>)
    ensures |r| == 2 && r[0] == ShowDownloading && r[1] == Send(url)
    ensures !Registers(r) && !Evaluates(r)
  {
    [ShowDownloading, Send(url)]
  }

  /** A response that passes the gate: register the bundle with the hot-reload client, then
      evaluate it; the load fulfils exactly when the evaluation does not throw. */
  function Evaluate(rt: Runtime, url: JsString, body: Option<JsString>): (r: Load)
    ensures |r.effects| == 4 && r.effects[0] == ShowDownloading && r.effects[1] == Send(url)
    ensures r.effects[2] == RegisterBundle(url)
    ensures r.effects[3] == (if rt.hasGlobalEval then EvalWithSourceUrl(body, url) else Eval(body))
    ensures Registers(r.effects) && Evaluates(r.effects)
    ensures r.outcome.None? <==> rt.evalError(body).None?
  {
    var evaluation := if rt.hasGlobalEval then EvalWithSourceUrl(body, url) else Eval(body);
    var effects := Start(url) + [RegisterBundle(url), evaluation];
    assert effects[2].RegisterBundle? && (effects[3].Eval? || effects[3].EvalWithSourceUrl?);
    Load(if rt.evalError(body).Some? then Some(EvalFailed(rt.evalError(body).value)) else None, effects)
  }

  /** The header key is matched exactly: a lower-case `content-type` does not gate the body,
      while a JSON media type with parameters does. */
  lemma ContentTypeKeyIsCaseSensitive(headers: map<JsString, JsString>, v: JsString, params: JsString)
    requires ContentTypeKey !in headers
    ensures !IsJsonResponse(headers[Lit("content-type") := v])
    ensures IsJsonResponse(headers[ContentTypeKey := JsonMediaType + params])
  {
    assert Lit("content-type")[0] != ContentTypeKey[0];
    var w := JsonMediaType + params;
    assert w[..|JsonMediaType|] == JsonMediaType;
    assert OccursAt(w, JsonMediaType, 0);
  }


  // ---------------------------------------------------------------------------
  // pendingRequests and the loading indicator

  /** A load starts (`++pendingRequests` after showing the indicator) or settles (its `finally`). */
  datatype LoadEvent = Started | Settled

  /** The counter and whether the indicator is on screen. */
  datatype Indicator = Indicator(pending: int, visible: bool)

  /** One event: a start shows the indicator; a settle hides it when the decremented counter
      is zero and otherwise leaves it as it was. */
  function Next(s: Indicator, e: LoadEvent): (r: Indicator)
    ensures e.Started? ==> r.pending == s.pending + 1 && r.visible
    ensures e.Settled? ==> r.pending == s.pending - 1 && (r.visible <==> s.visible && r.pending != 0)
  {
    match e
    case Started => Indicator(s.pending + 1, true)
    case Settled =>
      var p := s.pending - 1;
      Indicator(p, if p == 0 then false else s.visible)
  }

  /** The state after a sequence of events, from the module's initial state. */
  function Replay(events: seq<LoadEvent>): Indicator
    decreases |events|
  {
    if events == [] then Indicator(0, false) else Next(Replay(events[..|events| - 1]), events[|events| - 1])
  }

  function Count(events: seq<LoadEvent>, e: LoadEvent): nat
    decreases |events|
  {
    if events == [] then 0 else Count(events[..|events| - 1], e) + (if events[|events| - 1] == e then 1 else 0)
  }

  /** Every settle belongs to an earlier start. */
  predicate Balanced(events: seq<LoadEvent>)
    decreases |events|
  {
    events == [] ||
    (Balanced(events[..|events| - 1])
     && (events[|events| - 1].Settled? ==> Count(events[..|events| - 1], Settled) < Count(events[..|events| - 1], Started)))
  }

  /** The counter is the number of loads still in flight, and the indicator is on screen exactly
      while one is. */
  lemma {:induction false} IndicatorTracksPendingLoads(events: seq<LoadEvent>)
    requires Balanced(events)
    ensures Replay(events).pending == Count(events, Started) - Count(events, Settled) >= 0
    ensures Replay(events).visible <==> Replay(events).pending > 0
    decreases |events|
  {
    if events != [] {
      IndicatorTracksPendingLoads(events[..|events| - 1]);
    }
  }
}
