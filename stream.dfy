/** The logic of the PHP stream-wrapper adapter (src/Adapter/StreamAdapter.php)
    that does not depend on real I/O: the Connection rule and the intercept
    short-circuit of `send`, the context options built from the request and
    its configuration, the URL opened, the error message when no resource can
    be made, the drain of the response into its destination, and the parsing
    of the wrapper's response header lines.

    The stream wrapper itself is an `Env`: whether a file exists, whether the
    context is created, what opening a URL with given options yields, and what
    `error_get_last` reports. Streams are strings of bytes. */
module StreamAdapter {
  import opened Php

  /** The length of each read from the response stream. */
  const ChunkSize := 8096

  const GzipPrefix := "compress.zlib://"

  /** The request as the adapter reads it. */
  datatype Message = Message(protocolVersion: string, verb: string, url: string, scheme: string,
                             headers: Assoc<seq<string>>, body: string, config: Assoc<Value>)

  /** A request; only its headers change while it is sent. */
  class Request {
    var headers: Assoc<seq<string>>
    const protocolVersion: string
    const verb: string
    const url: string
    const scheme: string
    const body: string
    const config: Assoc<Value>

    constructor (protocolVersion: string, verb: string, url: string, scheme: string,
                 headers: Assoc<seq<string>>, body: string, config: Assoc<Value>)
      ensures State() == Message(protocolVersion, verb, url, scheme, headers, body, config)
    {
      this.protocolVersion, this.verb, this.url, this.scheme := protocolVersion, verb, url, scheme;
      this.headers, this.body, this.config := headers, body, config;
    }

    function State(): Message
      reads this
    {
      Message(protocolVersion, verb, url, scheme, headers, body, config)
    }
  }

  /** A destination stream: its bytes and the position of the next write. */
  class Destination {
    var content: string
    var position: nat

    ghost predicate Valid()
      reads this
    {
      position <= |content|
    }

    /** `Stream::factory()`: an empty temporary stream. */
    constructor ()
      ensures Valid() && content == [] && position == 0
    {
      content, position := [], 0;
    }

    /** A write overwrites from the current position on and moves past what
        it wrote. */
    method Write(data: string)
      requires Valid()
      modifies this
      ensures Valid()
      ensures content == Overwrite(old(content), old(position), data)
      ensures position == old(position) + |data|
    {
      content := Overwrite(content, position, data);
      position := position + |data|;
    }

    method Rewind()
      requires Valid()
      modifies this
      ensures Valid() && content == old(content) && position == 0
    {
      position := 0;
    }
  }

  /** The bytes of `c` with `d` written from position `p` on. */
  function Overwrite(c: string, p: nat, d: string): (r: string)
    requires p <= |c|
    ensures |r| == if p + |d| <= |c| then |c| else p + |d|
  {
    c[..p] + d + (if p + |d| < |c| then c[p + |d|..] else [])
  }

  /** A write keeps the bytes before the position, puts the data at the
      position, and keeps the bytes after the data when it ends inside. */
  lemma OverwriteShape(c: string, p: nat, d: string)
    requires p <= |c|
    ensures var r := Overwrite(c, p, d);
      && r[..p] == c[..p] && r[p..p + |d|] == d
      && (p + |d| <= |c| ==> r[p + |d|..] == c[p + |d|..])
  {
  }

  /** Writing nothing changes nothing. */
  lemma OverwriteNothing(c: string, p: nat)
    requires p <= |c|
    ensures Overwrite(c, p, []) == c
  {
    assert c[..p] + c[p..] == c;
  }

  /** Two writes one after the other are one write of both. */
  lemma OverwriteConcat(c: string, p: nat, a: string, b: string)
    requires p <= |c|
    ensures Overwrite(Overwrite(c, p, a), p + |a|, b) == Overwrite(c, p, a + b)
  {
    var x := Overwrite(Overwrite(c, p, a), p + |a|, b);
    var y := Overwrite(c, p, a + b);
    OverwriteShape(c, p, a);
    OverwriteShape(Overwrite(c, p, a), p + |a|, b);
    OverwriteShape(c, p, a + b);
    assert |x| == |y|;
    forall i | 0 <= i < |x| ensures x[i] == y[i] {
      if i < p {
        assert x[..p][i] == y[..p][i];
      } else if i < p + |a| {
        assert Overwrite(c, p, a)[p..p + |a|][i - p] == a[i - p];
        assert y[p..p + |a| + |b|][i - p] == (a + b)[i - p];
      } else if i < p + |a| + |b| {
        assert x[p + |a|..p + |a| + |b|][i - p - |a|] == b[i - p - |a|];
        assert y[p..p + |a| + |b|][i - p] == (a + b)[i - p];
      } else {
        assert x[p + |a| + |b|..][i - p - |a| - |b|] == Overwrite(c, p, a)[p + |a| + |b|..][i - p - |a| - |b|];
      }
    }
  }

  /** What opening the URL yields: the header lines the wrapper reports and
      the bytes of the response. */
  datatype Opened = Opened(headerLines: seq<string>, content: string)

  datatype Env = Env(fileExists: string -> bool, contextCreated: bool,
                     open: (string, HttpOptions) -> Option<Opened>, lastError: Assoc<string>)

  datatype AdapterError = RuntimeError(message: string) | RequestError(message: string)

  datatype Body = Raw(content: string) | Saved(destination: Destination)

  /** A response: the arguments the adapter passes to the message factory,
      or one a before-send listener supplied. */
  datatype Response =
    | Created(code: Option<string>, headers: Assoc<string>, body: Body, options: Assoc<string>)
    | FromListener(id: nat)

  class Transaction {
    const request: Request
    var response: Option<Response>

    constructor (request: Request)
      ensures this.request == request && response == None
    {
      this.request, response := request, None;
    }
  }

  // ---------------------------------------------------------------------
  // send

  /** The headers after the Connection rule: an HTTP/1.1 request without a
      Connection header, in any case, gets `Connection: close`. */
  function WithConnection(m: Message): Assoc<seq<string>> {
    if m.protocolVersion == "1.1" && !HasHeader(m.headers, "Connection")
    then m.headers + [("Connection", ["close"])] else m.headers
  }

  /** After the rule an HTTP/1.1 request always has a Connection header, the
      one added reads `close`, no header that was there changes, and any
      other protocol version keeps the headers as they were. */
  lemma {:induction false} ConnectionRule(m: Message)
    ensures m.protocolVersion == "1.1" ==> HasHeader(WithConnection(m), "Connection")
    ensures WithConnection(m)[..|m.headers|] == m.headers
    ensures HasHeader(m.headers, "Connection") ==> WithConnection(m) == m.headers
    ensures m.protocolVersion != "1.1" ==> WithConnection(m) == m.headers
    ensures m.protocolVersion == "1.1" && !HasHeader(m.headers, "Connection")
            ==> FindHeader(WithConnection(m), "Connection") == Some(["close"])
  {
    var h := WithConnection(m);
    if m.protocolVersion == "1.1" && !HasHeader(m.headers, "Connection") {
      FindHeaderFirst(h, "Connection");
      assert h[|m.headers|] == ("Connection", ["close"]);
      assert SameName(h[|m.headers|].0, "Connection");
      FindHeaderSnoc(m.headers, ("Connection", ["close"]));
    }
  }

  method ApplyConnectionRule(request: Request)
    modifies request
    ensures request.headers == WithConnection(old(request.State()))
  {
    if request.protocolVersion == "1.1" && !HasHeader(request.headers, "Connection") {
      request.headers := request.headers + [("Connection", ["close"])];
    }
  }

  /** `send`: the Connection rule, then the before-send listeners, which see
      the request with the rule applied and may supply the response; only
      when they do not is a stream opened and a response created, after
      which the complete listeners may replace it. `created` is the response
      as created, before the complete listeners ran. */
  method Send(t: Transaction, before: Message -> Option<Response>, complete: (Message, Response) -> Option<Response>,
              env: Env, dest: Destination)
    returns (r: Result<Response, AdapterError>, ghost created: Result<Response, AdapterError>)
    requires t.response == None
    requires dest.Valid()
    requires SaveTarget(t.request.config) == SaveToTemp ==> dest.content == [] && dest.position == 0
    modifies t, t.request, dest
    ensures t.request.headers == WithConnection(old(t.request.State()))
    ensures var m := old(t.request.State()).(headers := WithConnection(old(t.request.State())));
      && (before(m).Some? ==> r == Ok(before(m).value) && t.response == before(m)
                               && dest.content == old(dest.content) && dest.position == old(dest.position))
      && (before(m).None? ==>
            && Responded(created, if created.Ok? then Some(created.value) else None, m, env, dest,
                         old(dest.content), old(dest.position))
            && r == Completed(created, m, complete)
            && t.response == (if r.Ok? then Some(r.value) else None))
  {
    ApplyConnectionRule(t.request);
    var m := t.request.State();
    var b := before(m);
    if b.Some? {
      t.response := b;
    }
    if t.response == None {
      r := CreateResponse(t, env, dest);
      created := r;
      if r.Ok? {
        var c := complete(m, r.value);
        if c.Some? {
          t.response := c;
          r := Ok(c.value);
        }
      }
    } else {
      r := Ok(t.response.value);
      created := r;
    }
  }

  /** What `send` returns once the complete listeners have run: a failure
      to create the response passes through (they are not called), and a
      created response is replaced by the one a listener supplies, if any. */
  function Completed(created: Result<Response, AdapterError>, m: Message,
                     complete: (Message, Response) -> Option<Response>): Result<Response, AdapterError>
  {
    if created.Err? then created
    else match complete(m, created.value)
      case Some(replacement) => Ok(replacement)
      case None => created
  }

  /** The outcome of creating the response for `m`: the stream's error, or
      the parsed response whose body is either the live stream or the
      destination holding the drained bytes, positioned at 0. */
  ghost predicate Responded(r: Result<Response, AdapterError>, response: Option<Response>, m: Message, env: Env,
                          dest: Destination, content: string, position: nat)
    reads dest
  {
    match StreamFor(m, env)
    case Err(e) => r == Err(e) && response == None && dest.content == content && dest.position == position
    case Ok(o) =>
      && r == Ok(ResponseFor(o.headerLines, BodyFor(m, o, dest))) && response == Some(r.value)
      && Drained(m, o, dest, content, position)
  }

  /** The `stream` request option: hand the live stream over instead of saving it. */
  predicate Streams(m: Message) {
    Truthy(Get(m.config, "stream"))
  }

  function BodyFor(m: Message, o: Opened, dest: Destination): Body {
    if Streams(m) then Raw(o.content) else Saved(dest)
  }

  /** The destination after the body is settled: untouched for a streamed
      body, otherwise holding the drained bytes and rewound. */
  ghost predicate Drained(m: Message, o: Opened, dest: Destination, content: string, position: nat)
    reads dest
  {
    if Streams(m) then dest.content == content && dest.position == position
    else position <= |content| && dest.content == Overwrite(content, position, o.content) && dest.position == 0
  }

  /** `createResponse`: open the stream, drain it unless the request
      streams, and record the response on the transaction. */
  method CreateResponse(t: Transaction, env: Env, dest: Destination) returns (r: Result<Response, AdapterError>)
    requires t.response == None
    requires dest.Valid()
    modifies t, dest
    ensures Responded(r, t.response, t.request.State(), env, dest, old(dest.content), old(dest.position))
  {
    ghost var m := t.request.State();
    var stream := CreateStream(t.request, env);
    if stream.Err? {
      return Err(stream.error);
    }
    var response := RecordResponse(t, stream.value, dest);
    r := Ok(response);
    assert t.request.State() == m;
    RespondedOk(r, t.response, m, env, dest, old(dest.content), old(dest.position), stream.value);
  }

  lemma RespondedOk(r: Result<Response, AdapterError>, response: Option<Response>, m: Message, env: Env,
                    dest: Destination, content: string, position: nat, o: Opened)
    requires StreamFor(m, env) == Ok(o)
    requires r == Ok(ResponseFor(o.headerLines, BodyFor(m, o, dest))) && response == Some(r.value)
    requires Drained(m, o, dest, content, position)
    ensures Responded(r, response, m, env, dest, content, position)
  {
  }

  /** The response built from an opened stream, recorded on the transaction. */
  method RecordResponse(t: Transaction, stream: Opened, dest: Destination) returns (response: Response)
    requires dest.Valid()
    modifies t, dest
    ensures response == ResponseFor(stream.headerLines, BodyFor(t.request.State(), stream, dest))
    ensures t.response == Some(response)
    ensures Drained(t.request.State(), stream, dest, old(dest.content), old(dest.position))
  {
    var body := SettleBody(t.request, stream, dest);
    response := CreateResponseObject(stream.headerLines, body);
    t.response := Some(response);
  }

  /** The response body: the live stream, or the destination it is drained into. */
  method SettleBody(request: Request, stream: Opened, dest: Destination) returns (body: Body)
    requires dest.Valid()
    modifies dest
    ensures body == BodyFor(request.State(), stream, dest)
    ensures Drained(request.State(), stream, dest, old(dest.content), old(dest.position))
  {
    if Truthy(Get(request.config, "stream")) {
      body := Raw(stream.content);
    } else {
      var chunks := Drain(stream.content, dest);
      body := Saved(dest);
    }
  }

  // ---------------------------------------------------------------------
  // The context options

  /** One header line of the context: the name and the values joined by ", ". */
  function HeaderLine(name: string, values: seq<string>): string {
    name + ": " + Join(values, ", ")
  }

  function HeaderLines(h: Assoc<seq<string>>): seq<string> {
    seq(|h|, i requires 0 <= i < |h| => HeaderLine(h[i].0, h[i].1))
  }

  /** The lines, each ended by CRLF, before trimming. */
  function HeaderText(h: Assoc<seq<string>>): string {
    if h == [] then "" else HeaderText(h[..|h| - 1]) + HeaderLine(h[|h| - 1].0, h[|h| - 1].1) + "\r\n"
  }

  /** The header block is the lines joined by CRLF with one CRLF after the last. */
  lemma {:induction false} HeaderTextJoin(h: Assoc<seq<string>>)
    requires h != []
    ensures HeaderText(h) == Join(HeaderLines(h), "\r\n") + "\r\n"
  {
    var n := |h|;
    if n == 1 {
      assert HeaderText(h[..0]) == "";
    } else {
      var p := h[..n - 1];
      HeaderTextJoin(p);
      assert HeaderLines(h) == HeaderLines(p) + [HeaderLine(h[n - 1].0, h[n - 1].1)];
      JoinSnoc(HeaderLines(p), HeaderLine(h[n - 1].0, h[n - 1].1), "\r\n");
    }
  }

  /** Trimming removes only the final CRLF when the block starts and ends
      with characters trim keeps. */
  lemma HeaderBlockIsJoin(h: Assoc<seq<string>>)
    requires h != []
    requires var j := Join(HeaderLines(h), "\r\n"); j != [] && !IsTrimmed(j[0]) && !IsTrimmed(j[|j| - 1])
    ensures Trim(HeaderText(h)) == Join(HeaderLines(h), "\r\n")
  {
    HeaderTextJoin(h);
    TrimLineEnd(Join(HeaderLines(h), "\r\n"));
  }

  /** Trimming drops a trailing CRLF and nothing else from untrimmed text. */
  lemma TrimLineEnd(j: string)
    requires j != [] && !IsTrimmed(j[0]) && !IsTrimmed(j[|j| - 1])
    ensures Trim(j + "\r\n") == j
  {
    var s := j + "\r\n";
    assert TrimLeft(s) == s;
    assert TrimRight(s) == TrimRight(s[..|s| - 1]);
    assert s[..|s| - 1] == j + "\r";
    assert TrimRight(j + "\r") == TrimRight((j + "\r")[..|j|]);
    assert (j + "\r")[..|j|] == j;
  }

  /** The header text as the loop over the request headers builds it. */
  method BuildHeaderBlock(h: Assoc<seq<string>>) returns (block: string)
    ensures block == Trim(HeaderText(h))
  {
    var text := "";
    for i := 0 to |h|
      invariant text == HeaderText(h[..i])
    {
      assert h[..i + 1][..i] == h[..i];
      text := text + h[i].0 + ": " + Join(h[i].1, ", ") + "\r\n";
    }
    assert h[..|h|] == h;
    block := Trim(text);
  }

  /** The `http` context options. The base options are always present; the
      others are set by the translators and are None while unset. */
  datatype HttpOptions = HttpOptions(
    verb: string, header: string, protocolVersion: string, ignoreErrors: bool, followLocation: int,
    content: string, proxy: Option<Value>, timeout: Option<Value>, verifyPeer: Option<bool>,
    allowSelfSigned: Option<bool>, cafile: Option<string>, passphrase: Option<Value>, localCert: Option<Value>)

  function BaseOptions(m: Message): HttpOptions {
    HttpOptions(m.verb, Trim(HeaderText(m.headers)), m.protocolVersion, true, 0, m.body,
                None, None, None, None, None, None, None)
  }

  /** The options that have a translator; `debug` has one too, but it only
      installs a notification callback and sets no option. */
  datatype Translator = ProxyTranslator | TimeoutTranslator | VerifyTranslator | CertTranslator

  function TranslatorFor(key: string): Option<Translator> {
    if key == "proxy" then Some(ProxyTranslator)
    else if key == "timeout" then Some(TimeoutTranslator)
    else if key == "verify" then Some(VerifyTranslator)
    else if key == "cert" then Some(CertTranslator)
    else None
  }

  /** `visit_proxy`: a non-array is the proxy; an array is looked up by the
      request's scheme and leaves the option unset when the scheme is missing. */
  function VisitProxy(http: HttpOptions, scheme: string, value: Value): (r: HttpOptions)
    ensures !value.Arr? ==> r.proxy == Some(value)
    ensures value.Arr? && IsSet(value.entries, scheme) ==> r.proxy == Lookup(value.entries, scheme)
    ensures value.Arr? && !IsSet(value.entries, scheme) ==> r == http
    ensures r == http.(proxy := r.proxy)
  {
    if !value.Arr? then http.(proxy := Some(value))
    else if IsSet(value.entries, scheme) then http.(proxy := Some(Get(value.entries, scheme)))
    else http
  }

  /** `visit_verify`: true or a path turns peer verification on, a path must
      exist and becomes the CA file, false turns verification off, and any
      other value changes nothing. */
  function VisitVerify(http: HttpOptions, value: Value, fileExists: string -> bool): (r: Result<HttpOptions, AdapterError>)
    ensures r.Err? <==> value.Str? && !fileExists(value.s)
    ensures r.Err? ==> r.error == RuntimeError("SSL certificate authority file not found: " + value.s)
    ensures r.Ok? && (value == Bool(true) || value.Str?) ==> r.value.verifyPeer == Some(true)
    ensures r.Ok? && value.Str? ==> r.value.cafile == Some(value.s) && r.value.allowSelfSigned == Some(true)
    ensures value == Bool(true) ==> r == Ok(http.(verifyPeer := Some(true)))
    ensures value == Bool(false) ==> r == Ok(http.(verifyPeer := Some(false)))
    ensures !value.Bool? && !value.Str? ==> r == Ok(http)
    ensures r.Ok? ==> r.value == http.(verifyPeer := r.value.verifyPeer, allowSelfSigned := r.value.allowSelfSigned,
                                       cafile := r.value.cafile)
  {
    if value == Bool(true) then Ok(http.(verifyPeer := Some(true)))
    else if value.Str? then
      if !fileExists(value.s) then Err(RuntimeError("SSL certificate authority file not found: " + value.s))
      else Ok(http.(verifyPeer := Some(true), allowSelfSigned := Some(true), cafile := Some(value.s)))
    else if value == Bool(false) then Ok(http.(verifyPeer := Some(false)))
    else Ok(http)
  }

  /** `visit_cert`: a pair gives the certificate and its passphrase; the
      certificate file must exist. */
  function VisitCert(http: HttpOptions, value: Value, fileExists: string -> bool): (r: Result<HttpOptions, AdapterError>)
    ensures var path := if value.Arr? then Get(value.entries, "0") else value;
      && (r.Err? <==> !fileExists(ToPhpString(path)))
      && (r.Err? ==> r.error == RuntimeError("SSL certificate not found: " + ToPhpString(path)))
      && (r.Ok? ==> r.value.localCert == Some(path))
    ensures r.Ok? && value.Arr? ==> r.value.passphrase == Some(Get(value.entries, "1"))
    ensures r.Ok? ==> r.value == http.(passphrase := r.value.passphrase, localCert := r.value.localCert)
    ensures r.Ok? && !value.Arr? ==> r.value.passphrase == http.passphrase
  {
    var withPass := if value.Arr? then http.(passphrase := Some(Get(value.entries, "1"))) else http;
    var path := if value.Arr? then Get(value.entries, "0") else value;
    if !fileExists(ToPhpString(path)) then Err(RuntimeError("SSL certificate not found: " + ToPhpString(path)))
    else Ok(withPass.(localCert := Some(path)))
  }

  /** The translator for one configuration entry; keys without one change nothing. */
  function Visit(key: string, http: HttpOptions, scheme: string, value: Value, fileExists: string -> bool)
    : (r: Result<HttpOptions, AdapterError>)
    ensures TranslatorFor(key).None? ==> r == Ok(http)
  {
    match TranslatorFor(key)
    case None => Ok(http)
    case Some(ProxyTranslator) => Ok(VisitProxy(http, scheme, value))
    case Some(TimeoutTranslator) => Ok(http.(timeout := Some(value)))
    case Some(VerifyTranslator) => VisitVerify(http, value, fileExists)
    case Some(CertTranslator) => VisitCert(http, value, fileExists)
  }

  /** All configuration entries translated in order; the first error stops. */
  function Translate(config: Assoc<Value>, http: HttpOptions, scheme: string, fileExists: string -> bool)
    : Result<HttpOptions, AdapterError>
  {
    if config == [] then Ok(http)
    else
      var n := |config| - 1;
      match Translate(config[..n], http, scheme, fileExists)
      case Err(e) => Err(e)
      case Ok(h) => Visit(config[n].0, h, scheme, config[n].1, fileExists)
  }

  /** The entries that have a translator. */
  function Translatable(config: Assoc<Value>): (r: Assoc<Value>)
    ensures forall i :: 0 <= i < |r| ==> TranslatorFor(r[i].0).Some?
  {
    if config == [] then []
    else
      var n := |config| - 1;
      Translatable(config[..n]) + (if TranslatorFor(config[n].0).Some? then [config[n]] else [])
  }

  /** Only configuration keys with a translator affect the options. */
  lemma {:induction false} OnlyTranslatedKeysMatter(config: Assoc<Value>, http: HttpOptions, scheme: string,
                                                    fileExists: string -> bool)
    ensures Translate(config, http, scheme, fileExists) == Translate(Translatable(config), http, scheme, fileExists)
  {
    if config != [] {
      var n := |config| - 1;
      OnlyTranslatedKeysMatter(config[..n], http, scheme, fileExists);
      var t := Translatable(config[..n]);
      if TranslatorFor(config[n].0).Some? {
        var u := t + [config[n]];
        assert Translatable(config) == u;
        assert u[..|u| - 1] == t;
      } else {
        assert Translatable(config) == t;
      }
    }
  }

  /** The translators never touch the base options: the method, header block,
      protocol version and body are the request's, `ignore_errors` stays true
      and `follow_location` stays 0. */
  lemma {:induction false} TranslateFrame(config: Assoc<Value>, http: HttpOptions, scheme: string,
                                          fileExists: string -> bool)
    ensures var r := Translate(config, http, scheme, fileExists);
      r.Ok? ==> (&& r.value.verb == http.verb && r.value.header == http.header
                 && r.value.protocolVersion == http.protocolVersion && r.value.ignoreErrors == http.ignoreErrors
                 && r.value.followLocation == http.followLocation && r.value.content == http.content)
  {
    if config != [] {
      TranslateFrame(config[..|config| - 1], http, scheme, fileExists);
    }
  }

  /** The translation loop of createStream. */
  method TranslateOptions(config: Assoc<Value>, http: HttpOptions, scheme: string, fileExists: string -> bool)
    returns (r: Result<HttpOptions, AdapterError>)
    ensures r == Translate(config, http, scheme, fileExists)
  {
    var options := http;
    for i := 0 to |config|
      invariant Translate(config[..i], http, scheme, fileExists) == Ok(options)
    {
      assert config[..i + 1][..i] == config[..i];
      var v := Visit(config[i].0, options, scheme, config[i].1, fileExists);
      if v.Err? {
        TranslateStops(config, i + 1, http, scheme, fileExists);
        return v;
      }
      options := v.value;
    }
    assert config[..|config|] == config;
    r := Ok(options);
  }

  /** An error at entry i - 1 is the error of the whole translation. */
  lemma {:induction false} TranslateStops(config: Assoc<Value>, i: nat, http: HttpOptions, scheme: string,
                                          fileExists: string -> bool)
    requires i <= |config|
    requires Translate(config[..i], http, scheme, fileExists).Err?
    ensures Translate(config, http, scheme, fileExists) == Translate(config[..i], http, scheme, fileExists)
    decreases |config| - i
  {
    if i < |config| {
      assert config[..i + 1][..i] == config[..i];
      TranslateStops(config, i + 1, http, scheme, fileExists);
    } else {
      assert config[..i] == config;
    }
  }

  /** The options of the stream context for `m`. */
  function ContextOptions(m: Message, fileExists: string -> bool): (r: Result<HttpOptions, AdapterError>)
    ensures r.Ok? ==> && r.value.verb == m.verb && r.value.header == Trim(HeaderText(m.headers))
                      && r.value.protocolVersion == m.protocolVersion && r.value.ignoreErrors
                      && r.value.followLocation == 0 && r.value.content == m.body
  {
    TranslateFrame(m.config, BaseOptions(m), m.scheme, fileExists);
    Translate(m.config, BaseOptions(m), m.scheme, fileExists)
  }

  // ---------------------------------------------------------------------
  // The URL opened and the error when no resource is made

  /** The value of a header, its values joined by ", ", or "" when absent. */
  function HeaderValue(h: Assoc<seq<string>>, name: string): string {
    match FindHeader(h, name)
    case None => ""
    case Some(vs) => Join(vs, ", ")
  }

  function StreamUrl(m: Message): (u: string)
    ensures Contains(HeaderValue(m.headers, "Accept-Encoding"), "gzip") ==> u == GzipPrefix + m.url
    ensures !Contains(HeaderValue(m.headers, "Accept-Encoding"), "gzip") ==> u == m.url
  {
    if Contains(HeaderValue(m.headers, "Accept-Encoding"), "gzip") then GzipPrefix + m.url else m.url
  }

  /** A prefix without the needle's first character neither adds nor hides
      an occurrence. */
  lemma {:induction false} ContainsAfter(p: string, s: string, needle: string)
    requires needle != [] && needle[0] !in p
    ensures Contains(p + s, needle) <==> Contains(s, needle)
  {
    if p != [] {
      assert !(needle <= p + s) by {
        assert (p + s)[0] == p[0];
      }
      assert (p + s)[1..] == p[1..] + s;
      ContainsAfter(p[1..], s, needle);
    } else {
      assert p + s == s;
    }
  }

  /** The gzip prefix makes no URL without "http" openable. */
  lemma StreamUrlKeepsValidity(m: Message)
    ensures Contains(StreamUrl(m), "http") <==> Contains(m.url, "http")
  {
    if Contains(HeaderValue(m.headers, "Accept-Encoding"), "gzip") {
      GzipPrefixHasNoH();
      ContainsAfter(GzipPrefix, m.url, "http");
    }
  }

  lemma GzipPrefixHasNoH()
    ensures "http"[0] !in GzipPrefix
  {
    assert forall i :: 0 <= i < |GzipPrefix| ==> GzipPrefix[i] != 'h' by {
      assert GzipPrefix == ['c', 'o', 'm', 'p', 'r', 'e', 's', 's', '.', 'z', 'l', 'i', 'b', ':', '/', '/'];
    }
  }

  /** `isset($options['http']['proxy'])`: set and not null. */
  predicate HasProxy(http: HttpOptions) {
    http.proxy.Some? && http.proxy.value != Null
  }

  function ProxyPart(http: HttpOptions): string {
    if HasProxy(http) then "[proxy] " + ToPhpString(http.proxy.value) + " " else ""
  }

  /** `[key] value ` for each entry of the last error. */
  function ErrorDetails(lastError: Assoc<string>): string {
    if lastError == [] then ""
    else
      var n := |lastError| - 1;
      ErrorDetails(lastError[..n]) + "[" + lastError[n].0 + "] " + lastError[n].1 + " "
  }

  /** The fixed lead of the message. */
  const ResourceLead := "Error creating resource. [url]"

  /** The message before the error details. */
  function ResourceHead(url: string, http: HttpOptions): string {
    ResourceLead + " " + url + " " + ProxyPart(http)
  }

  function ResourceError(url: string, http: HttpOptions, lastError: Assoc<string>): string {
    Trim(ResourceHead(url, http) + ErrorDetails(lastError))
  }

  /** The URL and proxy part of the message. */
  method FormatResourceHead(url: string, http: HttpOptions) returns (message: string)
    ensures message == ResourceHead(url, http)
  {
    message := ResourceLead + " " + url + " ";
    if HasProxy(http) {
      message := message + "[proxy] " + ToPhpString(http.proxy.value) + " ";
    }
  }

  /** The message the createResource loop builds. */
  method FormatResourceError(url: string, http: HttpOptions, lastError: Assoc<string>) returns (message: string)
    ensures message == ResourceError(url, http, lastError)
  {
    message := FormatResourceHead(url, http);
    for i := 0 to |lastError|
      invariant message == ResourceHead(url, http) + ErrorDetails(lastError[..i])
    {
      assert lastError[..i + 1][..i] == lastError[..i];
      message := message + "[" + lastError[i].0 + "] " + lastError[i].1 + " ";
    }
    assert lastError[..|lastError|] == lastError;
    message := Trim(message);
  }

  /** Trimming at the right end keeps a prefix whose last character it keeps. */
  lemma TrimKeepsPrefix(p: string, rest: string)
    requires p != [] && !IsTrimmed(p[0]) && !IsTrimmed(p[|p| - 1])
    ensures p <= Trim(p + rest)
  {
    var s := p + rest;
    assert s[0] == p[0] && s[|p| - 1] == p[|p| - 1];
    assert TrimLeft(s) == s;
    var r := TrimRight(s);
    assert |r| >= |p|;
    assert r[..|p|] == s[..|p|] == p;
  }

  /** The message starts with its lead. */
  lemma ResourceErrorLead(url: string, http: HttpOptions, lastError: Assoc<string>)
    ensures ResourceLead <= ResourceError(url, http, lastError)
  {
    var details := ErrorDetails(lastError);
    LeadEnds();
    assert ResourceHead(url, http) + details == ResourceLead + (" " + url + " " + ProxyPart(http) + details);
    TrimKeepsPrefix(ResourceLead, " " + url + " " + ProxyPart(http) + details);
  }

  /** The URL follows the lead (when it does not end in a trimmed character). */
  lemma ResourceErrorUrl(url: string, http: HttpOptions, lastError: Assoc<string>)
    requires url != [] && !IsTrimmed(Last(url))
    ensures ResourceLead + " " + url <= ResourceError(url, http, lastError)
  {
    var details := ErrorDetails(lastError);
    LeadEnds();
    var p := ResourceLead + " " + url;
    assert p[0] == ResourceLead[0] && p[|p| - 1] == Last(url);
    assert ResourceHead(url, http) + details == p + (" " + ProxyPart(http) + details);
    TrimKeepsPrefix(p, " " + ProxyPart(http) + details);
  }

  /** A set proxy follows the URL (when it does not end in a trimmed character). */
  lemma ResourceErrorProxy(url: string, http: HttpOptions, lastError: Assoc<string>)
    requires HasProxy(http) && ToPhpString(http.proxy.value) != [] && !IsTrimmed(Last(ToPhpString(http.proxy.value)))
    ensures ResourceLead + " " + url + " " + "[proxy] " + ToPhpString(http.proxy.value) <= ResourceError(url, http, lastError)
  {
    var details := ErrorDetails(lastError);
    var proxy := ToPhpString(http.proxy.value);
    LeadEnds();
    var p := ResourceLead + " " + url + " " + "[proxy] " + proxy;
    assert p[0] == ResourceLead[0] && p[|p| - 1] == Last(proxy);
    assert ProxyPart(http) == "[proxy] " + proxy + " ";
    assert ResourceHead(url, http) + details == p + (" " + details);
    TrimKeepsPrefix(p, " " + details);
  }

  function Last(s: string): char
    requires s != []
  {
    s[|s| - 1]
  }

  lemma LeadEnds()
    ensures ResourceLead != [] && !IsTrimmed(ResourceLead[0]) && !IsTrimmed(ResourceLead[|ResourceLead| - 1])
  {
    assert ResourceLead[0] == 'E';
    assert ResourceLead[|ResourceLead| - 1] == ']';
  }

  /** createStream: the options, the context, then the URL, which must
      contain "http" before it is opened. */
  function StreamFor(m: Message, env: Env): Result<Opened, AdapterError> {
    match ContextOptions(m, env.fileExists)
    case Err(e) => Err(e)
    case Ok(http) => OpenWith(m, env, http)
  }

  /** The part of createStream after the options are built. */
  function OpenWith(m: Message, env: Env, http: HttpOptions): Result<Opened, AdapterError> {
    if !env.contextCreated then Err(RequestError(ResourceError(m.url, http, env.lastError)))
    else
      var url := StreamUrl(m);
      if !Contains(url, "http") then Err(RequestError(ResourceError(m.url, http, env.lastError)))
      else match env.open(url, http)
        case None => Err(RequestError(ResourceError(m.url, http, env.lastError)))
        case Some(o) => Ok(o)
  }

  /** A stream is opened only when the options build, the context is made,
      the request's URL contains "http" and the wrapper opens the URL with
      those options; the stream is then what the wrapper opened. */
  lemma StreamForOpens(m: Message, env: Env)
    ensures StreamFor(m, env).Ok? <==>
      && ContextOptions(m, env.fileExists).Ok? && env.contextCreated && Contains(m.url, "http")
      && env.open(StreamUrl(m), ContextOptions(m, env.fileExists).value).Some?
    ensures StreamFor(m, env).Ok? ==>
      StreamFor(m, env).value == env.open(StreamUrl(m), ContextOptions(m, env.fileExists).value).value
  {
    var c := ContextOptions(m, env.fileExists);
    if c.Ok? {
      OpenWithOpens(m, env, c.value);
      StreamUrlKeepsValidity(m);
    }
  }

  lemma OpenWithOpens(m: Message, env: Env, http: HttpOptions)
    ensures OpenWith(m, env, http).Ok? <==>
      env.contextCreated && Contains(StreamUrl(m), "http") && env.open(StreamUrl(m), http).Some?
    ensures OpenWith(m, env, http).Ok? ==> OpenWith(m, env, http).value == env.open(StreamUrl(m), http).value
  {
  }

  /** Every failure after the options are built carries the resource message. */
  lemma StreamForFails(m: Message, env: Env)
    requires ContextOptions(m, env.fileExists).Ok? && StreamFor(m, env).Err?
    ensures StreamFor(m, env).error == RequestError(ResourceError(m.url, ContextOptions(m, env.fileExists).value, env.lastError))
  {
  }

  method CreateStream(request: Request, env: Env) returns (r: Result<Opened, AdapterError>)
    ensures r == StreamFor(request.State(), env)
  {
    var block := BuildHeaderBlock(request.headers);
    var base := HttpOptions(request.verb, block, request.protocolVersion, true, 0, request.body,
                            None, None, None, None, None, None, None);
    assert base == BaseOptions(request.State());
    var options := TranslateOptions(request.config, base, request.scheme, env.fileExists);
    if options.Err? {
      return Err(options.error);
    }
    r := OpenStream(request, env, options.value);
  }

  /** The URL, behind the zlib wrapper when the request accepts gzip. */
  method GzipUrl(request: Request) returns (url: string)
    ensures url == StreamUrl(request.State())
  {
    url := request.url;
    if Contains(HeaderValue(request.headers, "Accept-Encoding"), "gzip") {
      url := GzipPrefix + url;
    }
  }

  method OpenStream(request: Request, env: Env, http: HttpOptions) returns (r: Result<Opened, AdapterError>)
    ensures r == OpenWith(request.State(), env, http)
  {
    if !env.contextCreated {
      var message := FormatResourceError(request.url, http, env.lastError);
      return Err(RequestError(message));
    }
    var url := GzipUrl(request);
    var stream := if Contains(url, "http") then env.open(url, http) else None;
    if stream.None? {
      var message := FormatResourceError(request.url, http, env.lastError);
      return Err(RequestError(message));
    }
    r := Ok(stream.value);
  }

  // ---------------------------------------------------------------------
  // Draining into the destination

  /** Where the response is saved when the request does not stream. */
  datatype SaveTo = SaveToPath(path: string) | SaveToStream(target: Value) | SaveToTemp

  function SaveTarget(config: Assoc<Value>): SaveTo {
    var v := Get(config, "save_to");
    if !Truthy(v) then SaveToTemp else if v.Str? then SaveToPath(v.s) else SaveToStream(v)
  }

  function Concat(parts: seq<string>): string {
    if parts == [] then "" else Concat(parts[..|parts| - 1]) + parts[|parts| - 1]
  }

  /** getSaveToBody's loop: read the source in chunks of ChunkSize bytes,
      write each to the destination in order, then seek it back to 0. */
  method Drain(source: string, dest: Destination) returns (chunks: seq<string>)
    requires dest.Valid()
    modifies dest
    ensures dest.Valid()
    ensures dest.content == Overwrite(old(dest.content), old(dest.position), source) && dest.position == 0
    ensures Concat(chunks) == source
    ensures forall i :: 0 <= i < |chunks| ==> 0 < |chunks[i]| <= ChunkSize
    ensures forall i :: 0 <= i < |chunks| - 1 ==> |chunks[i]| == ChunkSize
  {
    ghost var c0, p0 := dest.content, dest.position;
    var offset := 0;
    chunks := [];
    OverwriteNothing(c0, p0);
    assert source[..0] == [];
    while offset < |source|
      invariant offset <= |source|
      invariant dest.Valid() && dest.position == p0 + offset
      invariant dest.content == Overwrite(c0, p0, source[..offset])
      invariant Concat(chunks) == source[..offset]
      invariant Chunked(chunks, offset < |source|)
      decreases |source| - offset
    {
      var end := if offset + ChunkSize < |source| then offset + ChunkSize else |source|;
      var chunk := source[offset..end];
      dest.Write(chunk);
      DrainStep(c0, p0, source, offset, end, dest.content);
      ChunkedSnoc(chunks, chunk, end < |source|);
      chunks := chunks + [chunk];
      offset := end;
    }
    assert source[..offset] == source;
    dest.Rewind();
  }

  /** Writing the next chunk extends what was written of the source. */
  lemma DrainStep(c0: string, p0: nat, source: string, offset: nat, end: nat, content: string)
    requires p0 <= |c0| && offset <= end <= |source|
    requires content == Overwrite(Overwrite(c0, p0, source[..offset]), p0 + offset, source[offset..end])
    ensures content == Overwrite(c0, p0, source[..end])
  {
    OverwriteConcat(c0, p0, source[..offset], source[offset..end]);
    assert source[..offset] + source[offset..end] == source[..end];
  }

  /** Chunks of at most ChunkSize bytes, none empty, all but the last full;
      the last one too when more is to come. */
  predicate Chunked(chunks: seq<string>, allFull: bool) {
    && (forall i :: 0 <= i < |chunks| ==> 0 < |chunks[i]| <= ChunkSize)
    && (forall i :: 0 <= i < |chunks| - 1 ==> |chunks[i]| == ChunkSize)
    && (allFull ==> forall i :: 0 <= i < |chunks| ==> |chunks[i]| == ChunkSize)
  }

  lemma ChunkedSnoc(chunks: seq<string>, chunk: string, full: bool)
    requires Chunked(chunks, true) && 0 < |chunk| <= ChunkSize && (full ==> |chunk| == ChunkSize)
    ensures Chunked(chunks + [chunk], full)
    ensures Concat(chunks + [chunk]) == Concat(chunks) + chunk
  {
    assert (chunks + [chunk])[..|chunks|] == chunks;
  }

  /** Draining into a fresh temporary stream leaves exactly the source in it. */
  lemma DrainIntoEmpty(source: string)
    ensures Overwrite([], 0, source) == source
  {
  }

  // ---------------------------------------------------------------------
  // Parsing the response header lines

  /** `substr($s, -3)`. */
  function LastThree(s: string): (r: string)
    ensures |s| >= 3 ==> |r| == 3 && s == s[..|s| - 3] + r
    ensures |s| < 3 ==> r == s
  {
    if |s| >= 3 then s[|s| - 3..] else s
  }

  function ResponseOptions(parts: seq<string>): Assoc<string>
    requires |parts| >= 1
  {
    [("protocol_version", LastThree(parts[0]))] + (if |parts| > 2 then [("reason_phrase", parts[2])] else [])
  }

  /** The name of a header line: what precedes its first colon, or the
      whole line. */
  function HeaderName(line: string): string {
    match IndexOf(line, ':')
    case None => line
    case Some(i) => line[..i]
  }

  /** The value of a header line: what follows its first colon, untrimmed,
      or "" without a colon. */
  function HeaderField(line: string): string {
    match IndexOf(line, ':')
    case None => ""
    case Some(i) => line[i + 1..]
  }

  /** `explode(':', $line, 2)` gives the name and, when there is a colon, the value. */
  lemma HeaderSplit(line: string)
    ensures Explode(':', line, 2)[0] == HeaderName(line)
    ensures |Explode(':', line, 2)| > 1 <==> ':' in line
    ensures |Explode(':', line, 2)| > 1 ==> Explode(':', line, 2)[1] == HeaderField(line)
    ensures |Explode(':', line, 2)| == 1 ==> HeaderField(line) == ""
  {
    match IndexOf(line, ':')
    case None =>
    case Some(i) =>
      assert Explode(':', line[i + 1..], 1) == [line[i + 1..]];
  }

  /** Each header line as its name and value. */
  function HeaderPairs(lines: seq<string>): Assoc<string> {
    seq(|lines|, i requires 0 <= i < |lines| => (HeaderName(lines[i]), HeaderField(lines[i])))
  }

  /** The header map: each line keyed by its name, a later line replacing
      the value of an earlier one with the same name. */
  function ParsedHeaders(lines: seq<string>): Assoc<string> {
    PutAll(HeaderPairs(lines))
  }

  function ResponseFor(lines: seq<string>, body: Body): Response {
    var parts := Explode(' ', if lines == [] then "" else lines[0], 3);
    Created(if |parts| > 1 then Some(parts[1]) else None,
            ParsedHeaders(if lines == [] then [] else lines[1..]), body, ResponseOptions(parts))
  }

  /** A status line `version code reason` parses to its three parts; the
      reason may contain spaces and is absent when there is none. */
  lemma {:induction false} StatusLineParts(version: string, code: string, reason: string, lines: seq<string>, body: Body)
    requires ' ' !in version && ' ' !in code
    ensures var r := ResponseFor([version + " " + code + " " + reason] + lines, body);
      && r.code == Some(code)
      && r.options == [("protocol_version", LastThree(version)), ("reason_phrase", reason)]
      && r.headers == ParsedHeaders(lines)
    ensures var r := ResponseFor([version + " " + code] + lines, body);
      && r.code == Some(code)
      && r.options == [("protocol_version", LastThree(version))]
  {
    StatusSplitFull(version, code, reason);
    StatusSplitShort(version, code);
    assert ([version + " " + code + " " + reason] + lines)[1..] == lines;
    assert ([version + " " + code] + lines)[0] == version + " " + code;
  }

  lemma StatusSplitFull(version: string, code: string, reason: string)
    requires ' ' !in version && ' ' !in code
    ensures Explode(' ', version + " " + code + " " + reason, 3) == [version, code, reason]
  {
    SpacedRegroup(version, code, reason);
    ExplodeFirst(' ', version, code + " " + reason, 3);
    ExplodeFirst(' ', code, reason, 2);
  }

  lemma SpacedRegroup(a: string, b: string, c: string)
    ensures a + " " + b + " " + c == a + [' '] + (b + " " + c)
    ensures b + " " + c == b + [' '] + c
  {
    assert " " == [' '];
  }

  lemma StatusSplitShort(version: string, code: string)
    requires ' ' !in version && ' ' !in code
    ensures Explode(' ', version + " " + code, 3) == [version, code]
  {
    ExplodeFirst(' ', version, code, 3);
    assert version + " " + code == version + [' '] + code;
    ExplodeNoSeparator(' ', code, 2);
  }

  /** A line splits at its first colon; the value is not trimmed; a line
      without a colon is a name with the empty value. */
  lemma HeaderLineSplit(name: string, value: string)
    requires ':' !in name
    ensures HeaderName(name + ":" + value) == name && HeaderField(name + ":" + value) == value
    ensures HeaderName(name) == name && HeaderField(name) == ""
  {
    var line := name + ":" + value;
    assert line[..|name|] == name && line[|name|] == ':' && line[|name| + 1..] == value;
    assert IndexOf(line, ':') == Some(|name|) by {
      assert ':' !in line[..|name|];
    }
  }

  /** A name is in the header map exactly when some line has it. */
  lemma ParsedHeadersKeys(lines: seq<string>, k: string)
    ensures Lookup(ParsedHeaders(lines), k).None? <==> forall i :: 0 <= i < |lines| ==> HeaderName(lines[i]) != k
  {
    var pairs := HeaderPairs(lines);
    PutAllLookup(pairs, k);
    LastValueKeys(pairs, k);
    assert forall i :: 0 <= i < |lines| ==> pairs[i].0 == HeaderName(lines[i]);
  }

  /** The value kept for a name is that of the last line with that name. */
  lemma ParsedHeadersLast(lines: seq<string>, k: string)
    requires Lookup(ParsedHeaders(lines), k).Some?
    ensures exists i :: (0 <= i < |lines| && HeaderName(lines[i]) == k
                         && Lookup(ParsedHeaders(lines), k).value == HeaderField(lines[i])
                         && forall j :: i < j < |lines| ==> HeaderName(lines[j]) != k)
  {
    var pairs := HeaderPairs(lines);
    PutAllLookup(pairs, k);
    LastValueLast(pairs, k);
    var i :| 0 <= i < |pairs| && pairs[i].0 == k && LastValue(pairs, k).value == pairs[i].1
      && forall j :: i < j < |pairs| ==> pairs[j].0 != k;
    assert forall j :: i < j < |lines| ==> pairs[j].0 == HeaderName(lines[j]);
  }

  /** One more line puts its name and value. */
  lemma ParsedHeadersSnoc(lines: seq<string>, i: nat)
    requires i < |lines|
    ensures ParsedHeaders(lines[..i + 1]) == Put(ParsedHeaders(lines[..i]), HeaderName(lines[i]), HeaderField(lines[i]))
  {
    var p := HeaderPairs(lines[..i + 1]);
    assert p[..i] == HeaderPairs(lines[..i]);
    assert p[i] == (HeaderName(lines[i]), HeaderField(lines[i]));
  }

  /** The header loop of createResponseObject. */
  method ParseHeaders(lines: seq<string>) returns (headers: Assoc<string>)
    ensures headers == ParsedHeaders(lines)
  {
    headers := [];
    for i := 0 to |lines|
      invariant headers == ParsedHeaders(lines[..i])
    {
      var parts := Explode(':', lines[i], 2);
      HeaderSplit(lines[i]);
      ParsedHeadersSnoc(lines, i);
      headers := Put(headers, parts[0], if |parts| > 1 then parts[1] else "");
    }
    assert lines[..|lines|] == lines;
  }

  method CreateResponseObject(lines: seq<string>, body: Body) returns (response: Response)
    ensures response == ResponseFor(lines, body)
  {
    var parts := Explode(' ', if lines == [] then "" else lines[0], 3);
    var options := [("protocol_version", LastThree(parts[0]))];
    if |parts| > 2 {
      options := options + [("reason_phrase", parts[2])];
    } else {
      assert options + [] == options;
    }
    assert options == ResponseOptions(parts);
    var headers := ParseHeaders(if lines == [] then [] else lines[1..]);
    response := Created(if |parts| > 1 then Some(parts[1]) else None, headers, body, options);
  }
}
