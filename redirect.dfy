/** The redirect follower (src/Guzzle/Http/RedirectPlugin.php). After a
    request is sent, it keeps sending derived requests while the latest
    response is a redirect that names a Location, at most five times. The
    client's send, URL parsing and URL resolution are supplied from outside.

    As written, every derived request is cloned from the ORIGINAL request and
    pointed at the ORIGINAL response's Location, and the switch to GET is made
    on the original request rather than on its clone. `OnRequestSent` models
    that; `OnRequestSentChained` models the evidently intended chain. */
module Redirect {
  import opened Php

  const DefaultMaxRedirects := 5

  datatype Url = Url(base: string, query: Assoc<string>)

  /** URL handling of the Url class, which is not part of this model. */
  datatype UrlOps = UrlOps(parse: string -> Url, format: Url -> string, isAbsolute: Url -> bool,
                           combine: (Url, string) -> Url)

  /** An entity body. `seekable` says whether rewinding it succeeds. */
  class EntityBody {
    var position: nat
    const seekable: bool

    constructor (position: nat, seekable: bool)
      ensures this.position == position && this.seekable == seekable
    {
      this.position, this.seekable := position, seekable;
    }
  }

  /** The two transfer options the plugin reads; the others are carried along. */
  datatype TransferOptions = TransferOptions(disable: Value, strict: Value, others: Assoc<Value>)

  class Request {
    var verb: string
    var url: Url
    var body: EntityBody?
    var options: TransferOptions

    constructor (verb: string, url: Url, body: EntityBody?, options: TransferOptions)
      ensures this.verb == verb && this.url == url && this.body == body && this.options == options
    {
      this.verb, this.url, this.body, this.options := verb, url, body, options;
    }

    /** `clone`: a new request with the same fields; the body object is shared. */
    method Clone() returns (c: Request)
      ensures fresh(c)
      ensures c.verb == verb && c.url == url && c.body == body && c.options == options
    {
      c := new Request(verb, url, body, options);
    }
  }

  class Response {
    const status: int
    const headers: Assoc<string>
    /** The Location header, looked up without regard to case when the
        response is made. */
    const location: Option<string>

    constructor (status: int, headers: Assoc<string>)
      ensures this.status == status && this.headers == headers
      ensures location == FindHeader(headers, "Location")
    {
      this.status, this.headers := status, headers;
      location := FindHeader(headers, "Location");
    }
  }

  /** What a sent request looked like when it was handed to the client. */
  datatype Sent = Sent(verb: string, url: Url, body: EntityBody?, options: TransferOptions)

  function Snapshot(r: Request): Sent
    reads r
  {
    Sent(r.verb, r.url, r.body, r.options)
  }

  /** The end of onRequestSent: nothing to do, the event intercepted with a
      later response, or one of the two exceptions. */
  datatype Outcome =
    | Returned
    | Intercepted(response: Response)
    | TooManyRedirects(message: string)
    | CouldNotRewind(message: string)

  const RewindMessage := "Unable to rewind the non-seekable entity body of the request after redirecting. cURL probably "
    + "sent part of body before the redirect occurred. Try adding acustom rewind function using on the "
    + "entity body of the request using setRewindFunction()."

  /** isRedirect: a 3xx status. */
  predicate IsRedirect(r: Response) {
    300 <= r.status < 400
  }

  /** The loop goes on while the latest response is a redirect with a Location. */
  predicate Continues(r: Response) {
    IsRedirect(r) && r.location.Some?
  }

  function Location(r: Response): string {
    if r.location.Some? then r.location.value else ""
  }

  /** setRedirectUrl: an absolute Location is taken as it is; a relative one
      is resolved against the request URL with its query removed. */
  function Target(url: Url, location: string, ops: UrlOps): (t: Url)
    ensures ops.isAbsolute(ops.parse(location)) ==> t == ops.parse(location)
    ensures !ops.isAbsolute(ops.parse(location)) ==> t == ops.combine(url.(query := []), ops.format(ops.parse(location)))
  {
    var loc := ops.parse(location);
    if ops.isAbsolute(loc) then loc else ops.combine(url.(query := []), ops.format(loc))
  }

  /** The switch to GET: an entity-enclosing request, not strict, status at
      most 302. */
  predicate Downgrades(hasBody: bool, options: TransferOptions, status: int) {
    hasBody && !Truthy(options.strict) && status <= 302
  }

  /** The only way rewinding fails: part of the body was read and it cannot
      be rewound. */
  predicate RewindFails(body: EntityBody?)
    reads body
  {
    body != null && Blocked(body, body.position)
  }

  /** Whether rewinding `body` fails when it stands at `position`. */
  predicate Blocked(body: EntityBody?, position: nat) {
    body != null && position != 0 && !body.seekable
  }

  /** The client the event carries: `send` answers the n-th request sent,
      and `readTo` is where that send leaves the position of the body it
      was given (the transfer reads it). */
  datatype Client = Client(send: (Sent, nat) -> Response, readTo: (Sent, nat) -> nat)

  method SetRedirectUrl(redirectRequest: Request, response: Response, ops: UrlOps)
    modifies redirectRequest
    ensures redirectRequest.url == Target(old(redirectRequest.url), Location(response), ops)
    ensures redirectRequest.verb == old(redirectRequest.verb) && redirectRequest.body == old(redirectRequest.body)
    ensures redirectRequest.options == old(redirectRequest.options)
  {
    var location := ops.parse(Location(response));
    if !ops.isAbsolute(location) {
      var originalUrl := redirectRequest.url.(query := []);
      location := ops.combine(originalUrl, ops.format(location));
    }
    redirectRequest.url := location;
  }

  /** rewindEntityBody: a body that was partly read goes back to position 0,
      or the redirect fails when it cannot. */
  method RewindEntityBody(redirectRequest: Request) returns (ok: bool)
    modifies redirectRequest.body
    ensures ok <==> !old(RewindFails(redirectRequest.body))
    ensures redirectRequest.body != null ==>
      redirectRequest.body.position == (if ok then 0 else old(redirectRequest.body.position))
  {
    var body := redirectRequest.body;
    if body != null && body.position != 0 {
      if !body.seekable {
        return false;
      }
      body.position := 0;
    }
    ok := true;
  }

  /** The switch to GET of lines 78-81, on whichever request it is applied to. */
  method Downgrade(target: Request, hasBody: bool, options: TransferOptions, status: int)
    modifies target
    ensures target.verb == (if Downgrades(hasBody, options, status) then "GET" else old(target.verb))
    ensures target.body == (if Downgrades(hasBody, options, status) then null else old(target.body))
    ensures target.url == old(target.url) && target.options == old(target.options)
  {
    if hasBody && !Truthy(options.strict) && status <= 302 {
      target.verb := "GET";
      target.body := null;
    }
  }

  /** The clone every hop sends: the disable flag set, nothing else changed. */
  method DisabledClone(request: Request) returns (c: Request)
    ensures fresh(c)
    ensures Snapshot(c) == Snapshot(request).(options := request.options.(disable := Bool(true)))
  {
    c := request.Clone();
    c.options := c.options.(disable := Bool(true));
  }

  /** The clone after its URL is set and its body rewound. */
  method Finish(redirectRequest: Request, response: Response, ops: UrlOps) returns (ok: bool)
    modifies redirectRequest, redirectRequest.body
    ensures ok <==> !old(RewindFails(redirectRequest.body))
    ensures Snapshot(redirectRequest) == old(Snapshot(redirectRequest)).(url := Target(old(redirectRequest.url), Location(response), ops))
    ensures old(redirectRequest.body) != null ==>
      old(redirectRequest.body).position == (if ok then 0 else old(redirectRequest.body.position))
  {
    SetRedirectUrl(redirectRequest, response, ops);
    ok := RewindEntityBody(redirectRequest);
  }

  /** createRedirectRequest, as written: the clone carries the disable flag,
      the new URL and the original method and body, while the switch to GET
      is applied to `request` itself. */
  method CreateRedirectRequest(request: Request, response: Response, ops: UrlOps) returns (r: Result<Request, string>)
    modifies request, request.body
    ensures Snapshot(request) == Downgraded(old(Snapshot(request)), response)
    ensures r.Err? <==> old(RewindFails(request.body))
    ensures r.Err? ==> r.error == RewindMessage
    ensures old(request.body) != null ==>
      old(request.body).position == (if r.Ok? then 0 else old(request.body.position))
    ensures r.Ok? ==> fresh(r.value)
    ensures r.Ok? ==> Snapshot(r.value) == FirstHop(old(Snapshot(request)), response, ops)
  {
    var redirectRequest := DisabledClone(request);
    Downgrade(request, request.body != null, request.options, response.status);
    ghost var after := Snapshot(request);
    var ok := Finish(redirectRequest, response, ops);
    assert Snapshot(request) == after;
    if !ok {
      return Err(RewindMessage);
    }
    r := Ok(redirectRequest);
  }

  /** The request the first hop sends, as written: the original request's
      method and body, with the disable flag and the new URL. */
  function FirstHop(original: Sent, response: Response, ops: UrlOps): Sent {
    original.(url := Target(original.url, Location(response), ops), options := original.options.(disable := Bool(true)))
  }

  /** The original request after the switch to GET, if the response calls for it. */
  function Downgraded(original: Sent, response: Response): (d: Sent)
    ensures d.url == original.url && d.options == original.options
    ensures Downgrades(original.body != null, original.options, response.status) ==> d.verb == "GET" && d.body == null
    ensures !Downgrades(original.body != null, original.options, response.status) ==> d == original
  {
    var d := Downgrades(original.body != null, original.options, response.status);
    original.(verb := if d then "GET" else original.verb, body := if d then null else original.body)
  }

  /** Switching to GET a second time changes nothing: a downgraded request
      has no body left. */
  lemma DowngradedIdempotent(original: Sent, response: Response)
    ensures Downgraded(Downgraded(original, response), response) == Downgraded(original, response)
  {
  }

  /** The request a redirect from `prev` is meant to send: the switch to GET
      if the response calls for it, the new URL and the disable flag. As
      written, every hop after the first sends Redirected(original, response). */
  function Redirected(prev: Sent, response: Response, ops: UrlOps): Sent {
    FirstHop(Downgraded(prev, response), response, ops)
  }

  /** The response that led to hop k: the original response for the first
      hop, then the client's answer to hop k - 1. */
  function Prior(response: Response, sent: seq<Sent>, client: Client, k: nat): Response
    requires k <= |sent|
  {
    if k == 0 then response else client.send(sent[k - 1], k - 1)
  }

  lemma PriorSnoc(response: Response, sent: seq<Sent>, x: Sent, client: Client)
    ensures forall k :: 0 <= k <= |sent| ==> Prior(response, sent + [x], client, k) == Prior(response, sent, client, k)
    ensures Prior(response, sent + [x], client, |sent| + 1) == client.send(x, |sent|)
  {
  }

  /** Where the shared body stands when hop k is prepared: where the last
      hop that carried it left it, or where it started. A hop that carries
      it rewinds it to 0 first, and the client's send then moves it. */
  function BodyPosition(start: nat, sent: seq<Sent>, client: Client, k: nat): nat
    requires k <= |sent|
  {
    if k == 0 then start
    else if sent[k - 1].body != null then client.readTo(sent[k - 1], k - 1)
    else BodyPosition(start, sent, client, k - 1)
  }

  lemma {:induction false} BodyPositionSnoc(start: nat, sent: seq<Sent>, x: Sent, client: Client, k: nat)
    requires k <= |sent|
    ensures BodyPosition(start, sent + [x], client, k) == BodyPosition(start, sent, client, k)
  {
    if k > 0 {
      assert (sent + [x])[k - 1] == sent[k - 1];
      BodyPositionSnoc(start, sent, x, client, k - 1);
    }
  }

  /** A hop carrying the body after all earlier hops were sent: its
      position is then where the last of them left it. */
  lemma BodyPositionNext(start: nat, sent: seq<Sent>, x: Sent, client: Client)
    ensures BodyPosition(start, sent + [x], client, |sent| + 1) ==
      if x.body != null then client.readTo(x, |sent|) else BodyPosition(start, sent, client, |sent|)
  {
    BodyPositionSnoc(start, sent, x, client, |sent|);
  }

  /** Every hop sent so far found its body rewindable. */
  ghost predicate Rewound(start: nat, sent: seq<Sent>, client: Client) {
    forall k :: 0 <= k < |sent| ==> !Blocked(sent[k].body, BodyPosition(start, sent, client, k))
  }

  lemma RewoundSnoc(start: nat, sent: seq<Sent>, x: Sent, client: Client)
    requires Rewound(start, sent, client)
    requires !Blocked(x.body, BodyPosition(start, sent, client, |sent|))
    ensures Rewound(start, sent + [x], client)
  {
    var s := sent + [x];
    forall k | 0 <= k < |s| ensures !Blocked(s[k].body, BodyPosition(start, s, client, k)) {
      BodyPositionSnoc(start, sent, x, client, k);
      if k < |sent| {
        assert s[k] == sent[k];
      }
    }
  }

  /** The body's position before the loop; a missing body counts as 0. */
  function StartPosition(body: EntityBody?): nat
    reads body
  {
    if body == null then 0 else body.position
  }

  /** The loop's stopping rule and outcome, common to both versions.
      `blocked` says whether the body of the hop after the last one sent
      would fail to rewind. */
  ghost predicate Stopped(outcome: Outcome, response: Response, sent: seq<Sent>, client: Client, blocked: bool)
  {
    && |sent| <= DefaultMaxRedirects
    // each hop was made because the response before it redirected
    && (forall k :: 0 <= k < |sent| ==> Continues(Prior(response, sent, client, k)))
    && (outcome.TooManyRedirects? <==> |sent| == DefaultMaxRedirects && Continues(Prior(response, sent, client, |sent|)))
    && (outcome.TooManyRedirects? ==> outcome.message == "Redirected too many times: " + NatToString(DefaultMaxRedirects + 1))
    && (outcome.CouldNotRewind? <==> |sent| < DefaultMaxRedirects && Continues(Prior(response, sent, client, |sent|)) && blocked)
    && (outcome.CouldNotRewind? ==> outcome.message == RewindMessage)
    // otherwise the loop ended at a response that does not redirect, which is
    // intercepted exactly when it is not the original response
    && ((outcome.Returned? || outcome.Intercepted?) ==> !Continues(Prior(response, sent, client, |sent|)))
    && (outcome.Returned? ==> Prior(response, sent, client, |sent|) == response)
    && (outcome.Intercepted? ==> outcome.response == Prior(response, sent, client, |sent|) && outcome.response != response)
  }

  lemma StopAtLast(outcome: Outcome, response: Response, sent: seq<Sent>, client: Client, blocked: bool)
    requires |sent| <= DefaultMaxRedirects
    requires forall k :: 0 <= k < |sent| ==> Continues(Prior(response, sent, client, k))
    requires !Continues(Prior(response, sent, client, |sent|))
    requires var last := Prior(response, sent, client, |sent|);
      outcome == if last != response then Intercepted(last) else Returned
    ensures Stopped(outcome, response, sent, client, blocked)
  {
  }

  lemma StopTooMany(response: Response, sent: seq<Sent>, client: Client, blocked: bool)
    requires |sent| == DefaultMaxRedirects
    requires forall k :: 0 <= k <= |sent| ==> Continues(Prior(response, sent, client, k))
    ensures Stopped(TooManyRedirects("Redirected too many times: " + NatToString(DefaultMaxRedirects + 1)), response, sent, client, blocked)
  {
  }

  lemma StopRewind(response: Response, sent: seq<Sent>, client: Client)
    requires |sent| < DefaultMaxRedirects
    requires forall k :: 0 <= k <= |sent| ==> Continues(Prior(response, sent, client, k))
    ensures Stopped(CouldNotRewind(RewindMessage), response, sent, client, true)
  {
  }

  /** `$client->send`: the answer to the n-th send, which leaves the body it
      was given where the client stopped reading it. */
  method Send(x: Sent, client: Client, n: nat) returns (response: Response)
    modifies x.body
    ensures response == client.send(x, n)
    ensures x.body != null ==> x.body.position == client.readTo(x, n)
  {
    if x.body != null {
      x.body.position := client.readTo(x, n);
    }
    response := client.send(x, n);
  }

  /** Hop k as written: the first a redirect of the original request, the
      later ones of the original request switched to GET. */
  function AsWritten(original: Sent, response: Response, ops: UrlOps, k: nat): Sent {
    if k == 0 then FirstHop(original, response, ops) else Redirected(original, response, ops)
  }

  /** One pass of the loop body of onRequestSent, as written: the request is
      always built from the original request and the original response. The
      body rewound is the one hop k carries. */
  method HopFromOriginal(request: Request, response: Response, ops: UrlOps, ghost original: Sent, ghost k: nat)
    returns (r: Result<Sent, string>)
    requires Snapshot(request) == (if k == 0 then original else Downgraded(original, response))
    modifies request, request.body
    ensures Snapshot(request) == Downgraded(original, response)
    ensures var b := AsWritten(original, response, ops, k).body;
      && (r.Err? <==> old(RewindFails(b)))
      && (original.body != null ==>
            original.body.position == (if r.Ok? && b != null then 0 else old(original.body.position)))
    ensures r.Err? ==> r.error == RewindMessage
    ensures r.Ok? ==> r.value == AsWritten(original, response, ops, k)
  {
    DowngradedIdempotent(original, response);
    var c := CreateRedirectRequest(request, response, ops);
    if c.Err? {
      return Err(c.error);
    }
    r := Ok(Snapshot(c.value));
  }

  /** onRequestSent, as written. `client` answers the n-th send and moves
      the body it is given. */
  method OnRequestSent(request: Request, response: Response, client: Client, ops: UrlOps)
    returns (outcome: Outcome, sent: seq<Sent>)
    modifies request, request.body
    // a disabled request is left alone
    ensures old(Truthy(request.options.disable)) ==>
      outcome == Returned && sent == [] && Snapshot(request) == old(Snapshot(request))
      && (old(request.body) != null ==> old(request.body).position == old(request.body.position))
    ensures !old(Truthy(request.options.disable)) ==>
      && Stopped(outcome, response, sent, client,
                 Blocked(AsWritten(old(Snapshot(request)), response, ops, |sent|).body,
                         BodyPosition(old(StartPosition(request.body)), sent, client, |sent|)))
      && Rewound(old(StartPosition(request.body)), sent, client)
      // every hop is derived from the original request and the original response
      && (forall k :: 0 <= k < |sent| ==> sent[k] == AsWritten(old(Snapshot(request)), response, ops, k))
      // the original request is switched to GET by the first hop
      && Snapshot(request) == (if Continues(response) then Downgraded(old(Snapshot(request)), response) else old(Snapshot(request)))
      // the shared body is left where the last send that carried it left it
      && (old(request.body) != null ==>
            old(request.body).position == BodyPosition(old(StartPosition(request.body)), sent, client, |sent|))
  {
    if Truthy(request.options.disable) {
      return Returned, [];
    }
    ghost var original := Snapshot(request);
    ghost var b0 := request.body;
    ghost var start := StartPosition(b0);
    ghost var downgraded := Downgraded(original, response);
    var redirectResponse := response;
    var redirectCount := 0;
    sent := [];
    while Continues(redirectResponse)
      invariant redirectCount == |sent| <= DefaultMaxRedirects
      invariant redirectResponse == Prior(response, sent, client, |sent|)
      invariant Snapshot(request) == (if sent == [] then original else downgraded)
      invariant b0 != null ==> b0.position == BodyPosition(start, sent, client, |sent|)
      invariant FromOriginal(original, response, sent, client, ops)
      invariant Rewound(start, sent, client)
      decreases DefaultMaxRedirects - redirectCount
    {
      redirectCount := redirectCount + 1;
      if redirectCount > DefaultMaxRedirects {
        StopTooMany(response, sent, client,
                    Blocked(AsWritten(original, response, ops, |sent|).body, BodyPosition(start, sent, client, |sent|)));
        return TooManyRedirects("Redirected too many times: " + NatToString(redirectCount)), sent;
      }
      var r := HopFromOriginal(request, response, ops, original, |sent|);
      if r.Err? {
        StopRewind(response, sent, client);
        return CouldNotRewind(r.error), sent;
      }
      var snapshot := r.value;
      RewoundSnoc(start, sent, snapshot, client);
      BodyPositionNext(start, sent, snapshot, client);
      FromOriginalSnoc(original, response, sent, client, ops, snapshot);
      redirectResponse := Send(snapshot, client, |sent|);
      sent := sent + [snapshot];
    }
    if redirectResponse != response {
      outcome := Intercepted(redirectResponse);
    } else {
      outcome := Returned;
    }
    StopAtLast(outcome, response, sent, client,
               Blocked(AsWritten(original, response, ops, |sent|).body, BodyPosition(start, sent, client, |sent|)));
    assert sent != [] ==> Continues(response) by { if sent != [] { assert Continues(Prior(response, sent, client, 0)); } }
  }

  /** The hops so far as written, each made after a redirect. */
  ghost predicate FromOriginal(original: Sent, response: Response, sent: seq<Sent>, client: Client, ops: UrlOps)
  {
    && (forall k :: 0 <= k < |sent| ==> sent[k] == AsWritten(original, response, ops, k))
    && (forall k :: 0 <= k < |sent| ==> Continues(Prior(response, sent, client, k)))
  }

  lemma FromOriginalSnoc(original: Sent, response: Response, sent: seq<Sent>, client: Client, ops: UrlOps, x: Sent)
    requires FromOriginal(original, response, sent, client, ops)
    requires Continues(Prior(response, sent, client, |sent|))
    requires x == AsWritten(original, response, ops, |sent|)
    ensures FromOriginal(original, response, sent + [x], client, ops)
    ensures Prior(response, sent + [x], client, |sent| + 1) == client.send(x, |sent|)
  {
    PriorSnoc(response, sent, x, client);
  }

  /** The intended createRedirectRequest: the clone is switched to GET, not
      the request it was cloned from, which is left as it was. */
  method CreateChainedRequest(request: Request, response: Response, ops: UrlOps) returns (r: Result<Request, string>)
    modifies request.body
    ensures Snapshot(request) == old(Snapshot(request))
    ensures var b := Redirected(old(Snapshot(request)), response, ops).body;
      && (r.Err? <==> old(RewindFails(b)))
      && (b != null ==> b.position == (if r.Ok? then 0 else old(b.position)))
    ensures old(request.body) != null && Redirected(old(Snapshot(request)), response, ops).body == null ==>
      old(request.body).position == old(request.body.position)
    ensures r.Err? ==> r.error == RewindMessage
    ensures r.Ok? ==> fresh(r.value)
    ensures r.Ok? ==> Snapshot(r.value) == Redirected(old(Snapshot(request)), response, ops)
  {
    var redirectRequest := DisabledClone(request);
    Downgrade(redirectRequest, redirectRequest.body != null, redirectRequest.options, response.status);
    var ok := Finish(redirectRequest, response, ops);
    if !ok {
      return Err(RewindMessage);
    }
    r := Ok(redirectRequest);
  }

  /** The hop the chain makes next: a redirect of the last hop (or of the
      original request) by the response to it. */
  function ChainNext(original: Sent, response: Response, sent: seq<Sent>, client: Client, ops: UrlOps): Sent {
    Redirected(if sent == [] then original else sent[|sent| - 1], Prior(response, sent, client, |sent|), ops)
  }

  /** onRequestSent as evidently intended: each hop is derived from the
      previous hop and the response to it. */
  method OnRequestSentChained(request: Request, response: Response, client: Client, ops: UrlOps)
    returns (outcome: Outcome, sent: seq<Sent>)
    modifies request.body
    ensures Snapshot(request) == old(Snapshot(request))
    ensures old(Truthy(request.options.disable)) ==>
      && outcome == Returned && sent == []
      && (old(request.body) != null ==> old(request.body).position == old(request.body.position))
    ensures !old(Truthy(request.options.disable)) ==>
      && Stopped(outcome, response, sent, client,
                 Blocked(ChainNext(Snapshot(request), response, sent, client, ops).body,
                         BodyPosition(old(StartPosition(request.body)), sent, client, |sent|)))
      && Rewound(old(StartPosition(request.body)), sent, client)
      && (|sent| > 0 ==> sent[0] == Redirected(old(Snapshot(request)), response, ops))
      && (forall k :: 0 < k < |sent| ==> sent[k] == Redirected(sent[k - 1], Prior(response, sent, client, k), ops))
      && (old(request.body) != null ==>
            old(request.body).position == BodyPosition(old(StartPosition(request.body)), sent, client, |sent|))
  {
    if Truthy(request.options.disable) {
      return Returned, [];
    }
    ghost var original := Snapshot(request);
    ghost var b0 := request.body;
    ghost var start := StartPosition(b0);
    var current := request;
    var redirectResponse := response;
    var redirectCount := 0;
    sent := [];
    while Continues(redirectResponse)
      invariant redirectCount == |sent| <= DefaultMaxRedirects
      invariant redirectResponse == Prior(response, sent, client, |sent|)
      invariant Snapshot(request) == original
      invariant Snapshot(current) == if sent == [] then original else sent[|sent| - 1]
      invariant current.body == null || current.body == b0
      invariant b0 != null ==> b0.position == BodyPosition(start, sent, client, |sent|)
      invariant Chained(original, response, sent, client, ops)
      invariant Rewound(start, sent, client)
      decreases DefaultMaxRedirects - redirectCount
    {
      redirectCount := redirectCount + 1;
      if redirectCount > DefaultMaxRedirects {
        StopTooMany(response, sent, client,
                    Blocked(ChainNext(original, response, sent, client, ops).body, BodyPosition(start, sent, client, |sent|)));
        return TooManyRedirects("Redirected too many times: " + NatToString(redirectCount)), sent;
      }
      var r := CreateChainedRequest(current, redirectResponse, ops);
      if r.Err? {
        StopRewind(response, sent, client);
        return CouldNotRewind(r.error), sent;
      }
      current := r.value;
      var snapshot := Snapshot(current);
      RewoundSnoc(start, sent, snapshot, client);
      BodyPositionNext(start, sent, snapshot, client);
      ChainedSnoc(original, response, sent, client, ops, snapshot);
      redirectResponse := Send(snapshot, client, |sent|);
      sent := sent + [snapshot];
    }
    if redirectResponse != response {
      outcome := Intercepted(redirectResponse);
    } else {
      outcome := Returned;
    }
    StopAtLast(outcome, response, sent, client,
               Blocked(ChainNext(original, response, sent, client, ops).body, BodyPosition(start, sent, client, |sent|)));
  }

  /** The hops so far: the first derived from the original request, each
      later one from the hop before it, each made after a redirect. */
  ghost predicate Chained(original: Sent, response: Response, sent: seq<Sent>, client: Client, ops: UrlOps)
  {
    && (|sent| > 0 ==> sent[0] == Redirected(original, response, ops))
    && (forall k :: 0 < k < |sent| ==> sent[k] == Redirected(sent[k - 1], Prior(response, sent, client, k), ops))
    && (forall k :: 0 <= k < |sent| ==> Continues(Prior(response, sent, client, k)))
  }

  /** One more hop, derived from the last one and the response to it. */
  lemma ChainedSnoc(original: Sent, response: Response, sent: seq<Sent>, client: Client, ops: UrlOps, x: Sent)
    requires Chained(original, response, sent, client, ops)
    requires Continues(Prior(response, sent, client, |sent|))
    requires x == ChainNext(original, response, sent, client, ops)
    ensures Chained(original, response, sent + [x], client, ops)
    ensures Prior(response, sent + [x], client, |sent| + 1) == client.send(x, |sent|)
  {
    PriorSnoc(response, sent, x, client);
    var s := sent + [x];
    forall k | 0 < k < |s| ensures s[k] == Redirected(s[k - 1], Prior(response, s, client, k), ops) {
      if k < |sent| {
        assert s[k] == sent[k] && s[k - 1] == sent[k - 1];
      }
    }
  }

  /** URL handling in which every Location is absolute and parses to itself. */
  function AbsoluteOps(): UrlOps {
    UrlOps((s: string) => Url(s, []), (u: Url) => u.base, (u: Url) => true, (u: Url, s: string) => Url(s, []))
  }

  /** A GET to http://origin/ answered by a redirect to http://a/, whose
      target redirects to http://b/, whose target answers 200. */
  method ChainScenario() returns (request: Request, first: Response, client: Client)
    ensures fresh(request) && Snapshot(request) == Sent("GET", Url("http://origin/", []), null, TransferOptions(Null, Null, []))
    ensures Continues(first) && Location(first) == "http://a/"
    ensures Continues(client.send(Sent("GET", Url("http://a/", []), null, TransferOptions(Bool(true), Null, [])), 0))
    ensures Location(client.send(Sent("GET", Url("http://a/", []), null, TransferOptions(Bool(true), Null, [])), 0)) == "http://b/"
    ensures forall x :: !Continues(client.send(x, 1))
  {
    request := new Request("GET", Url("http://origin/", []), null, TransferOptions(Null, Null, []));
    first := new Response(302, [("Location", "http://a/")]);
    var second := new Response(302, [("Location", "http://b/")]);
    var third := new Response(200, []);
    client := Client((x: Sent, n: nat) => if n == 0 then second else third, (x: Sent, n: nat) => 0);
  }

  /** As written, the second hop goes back to http://a/ although the first
      hop was redirected to http://b/. */
  method RepeatedLocation() returns (sent: seq<Sent>)
    ensures |sent| >= 2
    ensures sent[0].url == Url("http://a/", []) && sent[1].url == Url("http://a/", [])
  {
    var request, first, client := ChainScenario();
    ghost var start := Snapshot(request);
    var outcome;
    outcome, sent := OnRequestSent(request, first, client, AbsoluteOps());
    assert Target(start.url, Location(first), AbsoluteOps()) == Url("http://a/", []);
    assert sent != [] by { assert !Blocked(AsWritten(start, first, AbsoluteOps(), 0).body, 0); }
    assert sent[0] == FirstHop(start, first, AbsoluteOps());
    assert sent[0] == Sent("GET", Url("http://a/", []), null, TransferOptions(Bool(true), Null, []));
  }

  /** As intended, the second hop follows the first hop's redirect. */
  method FollowedLocation() returns (sent: seq<Sent>)
    ensures |sent| == 2
    ensures sent[0].url == Url("http://a/", []) && sent[1].url == Url("http://b/", [])
  {
    var request, first, client := ChainScenario();
    ghost var start := Snapshot(request);
    var outcome;
    outcome, sent := OnRequestSentChained(request, first, client, AbsoluteOps());
    assert Target(start.url, Location(first), AbsoluteOps()) == Url("http://a/", []);
    assert sent != [] by { assert ChainNext(start, first, [], client, AbsoluteOps()).body == null; }
    assert sent[0] == FirstHop(start, first, AbsoluteOps());
    assert sent[0] == Sent("GET", Url("http://a/", []), null, TransferOptions(Bool(true), Null, []));
    assert Prior(first, sent, client, 1) == client.send(sent[0], 0);
    assert |sent| >= 2 by { assert ChainNext(start, first, sent[..1], client, AbsoluteOps()).body == null; }
    assert Prior(first, sent, client, 2) == client.send(sent[1], 1);
  }

  /** A POST with a body, answered by a 302 to http://a/ whose target answers 200. */
  method PostScenario() returns (request: Request, body: EntityBody, first: Response, client: Client)
    ensures fresh(request) && fresh(body) && request.verb == "POST" && request.body == body && body.position == 0
    ensures request.options == TransferOptions(Null, Null, [])
    ensures first.status == 302 && Continues(first) && Location(first) == "http://a/"
    ensures forall x :: !Continues(client.send(x, 0))
  {
    body := new EntityBody(0, true);
    request := new Request("POST", Url("http://origin/", []), body, TransferOptions(Null, Null, []));
    first := new Response(302, [("Location", "http://a/")]);
    var done := new Response(200, []);
    client := Client((x: Sent, n: nat) => done, (x: Sent, n: nat) => 0);
  }

  /** As written, the redirect is sent as a POST with the body, while the
      original request becomes a GET without one. */
  method DowngradeOnOriginal() returns (request: Request, sent: seq<Sent>)
    ensures |sent| == 1 && sent[0].verb == "POST" && sent[0].body != null
    ensures request.verb == "GET" && request.body == null
  {
    var body, first, client;
    request, body, first, client := PostScenario();
    var outcome;
    outcome, sent := OnRequestSent(request, first, client, AbsoluteOps());
    assert |sent| >= 1;
    assert Downgrades(true, TransferOptions(Null, Null, []), 302);
    assert Prior(first, sent, client, 1) == client.send(sent[0], 0);
  }

  /** As intended, the redirect is sent as a GET without a body and the
      original request keeps its method and body. */
  method DowngradeOnClone() returns (request: Request, sent: seq<Sent>)
    ensures |sent| == 1 && sent[0].verb == "GET" && sent[0].body == null
    ensures request.verb == "POST" && request.body != null
  {
    var body, first, client;
    request, body, first, client := PostScenario();
    var outcome;
    outcome, sent := OnRequestSentChained(request, first, client, AbsoluteOps());
    assert |sent| >= 1;
    assert Downgrades(true, TransferOptions(Null, Null, []), 302);
    assert Prior(first, sent, client, 1) == client.send(sent[0], 0);
  }

  /** A strict POST with a non-seekable body at position 0, answered by a
      302 to http://a/. Sending the first hop reads the body to position 7,
      and its target redirects again to http://b/. */
  method StrictScenario() returns (request: Request, body: EntityBody, first: Response, client: Client)
    ensures fresh(request) && fresh(body) && request.body == body && body.position == 0 && !body.seekable
    ensures Snapshot(request) == Sent("POST", Url("http://origin/", []), body, TransferOptions(Null, Bool(true), []))
    ensures Continues(first)
    ensures forall x :: Continues(client.send(x, 0)) && client.readTo(x, 0) == 7
  {
    body := new EntityBody(0, false);
    request := new Request("POST", Url("http://origin/", []), body, TransferOptions(Null, Bool(true), []));
    first := new Response(302, [("Location", "http://a/")]);
    var second := new Response(302, [("Location", "http://b/")]);
    var third := new Response(200, []);
    client := Client((x: Sent, n: nat) => if n == 0 then second else third, (x: Sent, n: nat) => 7);
  }

  /** The first hop is sent, and the second cannot rewind the body that
      send read: the redirect fails after one hop. */
  method RewindAfterSend() returns (outcome: Outcome, sent: seq<Sent>)
    ensures |sent| == 1 && outcome == CouldNotRewind(RewindMessage)
  {
    var request, body, first, client := StrictScenario();
    ghost var start := Snapshot(request);
    outcome, sent := OnRequestSent(request, first, client, AbsoluteOps());
    assert !Downgrades(true, start.options, first.status);
    assert !Blocked(AsWritten(start, first, AbsoluteOps(), 0).body, 0);
    assert |sent| != 0;
    assert BodyPosition(0, sent, client, 1) == 7;
    assert Continues(Prior(first, sent, client, 1));
  }
}
