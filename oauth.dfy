/** The OAuth 1.0 request signer (src/Guzzle/Plugin/Oauth/OauthPlugin.php),
    following section 9.1.1 of OAuth Core 1.0. The clock, the nonce, the
    signature callback (HMAC-SHA1 by default), base64 and the string form of
    a query are injected. */
module Oauth {
  import opened Php

  const HeaderMethod := "header"
  const QueryMethod := "query"

  /** The plugin listens to request.before_send at this priority, so it signs
      after the other listeners have changed the request. */
  const BeforeSendPriority := -1000

  /** A request URL: everything up to the query (scheme, host, port, path, as
      the URL class prints it), the query parameters and the fragment. */
  datatype Url = Url(base: string, query: Assoc<Value>, fragment: Option<string>)

  /** A request body: none, a POST field/file aggregate (only its fields
      matter here) or any other entity body. */
  datatype Body = NoBody | PostFields(fields: Assoc<Value>) | OtherBody(content: string)

  class Request {
    var verb: string
    var url: Url
    var headers: Assoc<string>
    var body: Body

    constructor (verb: string, url: Url, headers: Assoc<string>, body: Body)
      ensures this.verb == verb && this.url == url && this.headers == headers && this.body == body
    {
      this.verb, this.url, this.headers, this.body := verb, url, headers, body;
    }
  }

  datatype SignError = InvalidArgument(message: string)

  // ---------------------------------------------------------------------
  // Configuration

  function Defaults(): Assoc<Value> {
    [("version", Str("1.0")), ("request_method", Str(HeaderMethod)), ("consumer_key", Str("anonymous")),
     ("consumer_secret", Str("anonymous")), ("signature_method", Str("HMAC-SHA1"))]
  }

  lemma DefaultsCoverRequired()
    ensures forall k :: k in RequiredOptions ==> HasKey(Defaults(), k)
  {
    var d := Defaults();
    assert d[0].0 == "version" && d[2].0 == "consumer_key" && d[3].0 == "consumer_secret" && d[4].0 == "signature_method";
  }

  lemma MethodsDiffer()
    ensures HeaderMethod != QueryMethod
  {
    assert |HeaderMethod| == 6 && |QueryMethod| == 5;
  }

  /** The defaults name each option once. */
  lemma DefaultsDistinct()
    ensures DistinctKeys(Defaults())
  {
    var d := Defaults();
    assert |d[0].0| == 7 && |d[1].0| == 14 && |d[2].0| == 12 && |d[3].0| == 15 && |d[4].0| == 16;
  }

  /** The plugin's configuration: the user's settings over the defaults. */
  function Configure(user: Assoc<Value>): (config: Assoc<Value>)
    ensures forall k :: Lookup(config, k) == (if HasKey(user, k) then Lookup(user, k) else Lookup(Defaults(), k))
    ensures DistinctKeys(user) ==> DistinctKeys(config)
  {
    DefaultsDistinct();
    Union(user, Defaults())
  }

  /** Building the configuration never fails: every required option is present. */
  lemma ConfigureHasRequired(user: Assoc<Value>)
    ensures forall k :: k in RequiredOptions ==> HasKey(Configure(user), k)
  {
    DefaultsCoverRequired();
  }

  /** The options the configuration must hold; the defaults supply each, so
      building the configuration never fails. The signature callback, also
      required, is a parameter of the signing functions here. */
  const RequiredOptions: set<string> := {"signature_method", "version", "consumer_key", "consumer_secret"}

  // ---------------------------------------------------------------------
  // Protocol parameters

  /** Configuration option and the protocol parameter it supplies when set. */
  const OptionalParams: seq<(string, string)> :=
    [("callback", "oauth_callback"), ("token", "oauth_token"), ("verifier", "oauth_verifier"), ("version", "oauth_version")]

  function RequiredParams(config: Assoc<Value>, timestamp: int, nonce: string): Assoc<Value> {
    [("oauth_consumer_key", Get(config, "consumer_key")), ("oauth_nonce", Str(nonce)),
     ("oauth_signature_method", Get(config, "signature_method")), ("oauth_timestamp", Int(timestamp))]
  }

  /** Adds, in order, the protocol parameter of every option that is set. */
  function WithOptional(config: Assoc<Value>, params: Assoc<Value>, opts: seq<(string, string)>): Assoc<Value>
    decreases |opts|
  {
    if opts == [] then params
    else
      var front := WithOptional(config, params, opts[..|opts| - 1]);
      var (option, name) := opts[|opts| - 1];
      if IsSet(config, option) then Put(front, name, Get(config, option)) else front
  }

  function OauthParams(config: Assoc<Value>, timestamp: int, nonce: string): Assoc<Value> {
    WithOptional(config, RequiredParams(config, timestamp, nonce), OptionalParams)
  }

  /** getOauthParams: the four required parameters, then each optional one
      whose option is set. */
  method GetOauthParams(config: Assoc<Value>, timestamp: int, nonce: string) returns (params: Assoc<Value>)
    ensures params == OauthParams(config, timestamp, nonce)
  {
    params := [("oauth_consumer_key", Get(config, "consumer_key")), ("oauth_nonce", Str(nonce)),
               ("oauth_signature_method", Get(config, "signature_method")), ("oauth_timestamp", Int(timestamp))];
    for i := 0 to |OptionalParams|
      invariant params == WithOptional(config, RequiredParams(config, timestamp, nonce), OptionalParams[..i])
    {
      assert OptionalParams[..i + 1][..i] == OptionalParams[..i];
      var (optionName, oauthName) := OptionalParams[i];
      if IsSet(config, optionName) {
        params := Put(params, oauthName, Get(config, optionName));
      }
    }
    assert OptionalParams[..|OptionalParams|] == OptionalParams;
  }

  /** One optional parameter, added when its option is set. */
  function AddOptional(config: Assoc<Value>, params: Assoc<Value>, opt: (string, string)): Assoc<Value> {
    if IsSet(config, opt.0) then Put(params, opt.1, Get(config, opt.0)) else params
  }

  lemma WithOptionalSnoc(config: Assoc<Value>, params: Assoc<Value>, opts: seq<(string, string)>, opt: (string, string))
    ensures WithOptional(config, params, opts + [opt]) == AddOptional(config, WithOptional(config, params, opts), opt)
  {
    assert (opts + [opt])[..|opts|] == opts;
  }

  /** Adding an optional parameter sets exactly its own key, and only when
      the option is set. */
  lemma AddOptionalLookup(config: Assoc<Value>, params: Assoc<Value>, opt: (string, string))
    ensures var r := AddOptional(config, params, opt);
      && Lookup(r, opt.1) == (if IsSet(config, opt.0) then Some(Get(config, opt.0)) else Lookup(params, opt.1))
      && (forall k :: k != opt.1 ==> Lookup(r, k) == Lookup(params, k))
      && (DistinctKeys(params) ==> DistinctKeys(r))
  {
  }

  /** getOauthParams adds the optional parameters one after the other. */
  lemma OauthParamsUnfold(config: Assoc<Value>, timestamp: int, nonce: string)
    ensures OauthParams(config, timestamp, nonce) ==
      AddOptional(config, AddOptional(config, AddOptional(config, AddOptional(config,
        RequiredParams(config, timestamp, nonce), ("callback", "oauth_callback")), ("token", "oauth_token")),
        ("verifier", "oauth_verifier")), ("version", "oauth_version"))
  {
    var r := RequiredParams(config, timestamp, nonce);
    var o := OptionalParams;
    WithOptionalSnoc(config, r, o[..0], o[0]);
    WithOptionalSnoc(config, r, o[..1], o[1]);
    WithOptionalSnoc(config, r, o[..2], o[2]);
    WithOptionalSnoc(config, r, o[..3], o[3]);
    assert o[..0] + [o[0]] == o[..1];
    assert o[..1] + [o[1]] == o[..2];
    assert o[..2] + [o[2]] == o[..3];
    assert o[..3] + [o[3]] == o;
  }

  lemma RequiredParamsContents(config: Assoc<Value>, timestamp: int, nonce: string)
    ensures var r := RequiredParams(config, timestamp, nonce);
      && DistinctKeys(r)
      && Lookup(r, "oauth_consumer_key") == Some(Get(config, "consumer_key"))
      && Lookup(r, "oauth_nonce") == Some(Str(nonce))
      && Lookup(r, "oauth_signature_method") == Some(Get(config, "signature_method"))
      && Lookup(r, "oauth_timestamp") == Some(Int(timestamp))
      && (forall k :: HasKey(r, k) ==> k in RequiredNames)
  {
    var r := RequiredParams(config, timestamp, nonce);
    assert r[0].0 == "oauth_consumer_key" && r[1].0 == "oauth_nonce";
    assert r[2].0 == "oauth_signature_method" && r[3].0 == "oauth_timestamp";
  }

  /** The chain of parameter arrays getOauthParams builds. */
  lemma OauthParamsSteps(config: Assoc<Value>, timestamp: int, nonce: string)
    returns (r: Assoc<Value>, p1: Assoc<Value>, p2: Assoc<Value>, p3: Assoc<Value>)
    ensures r == RequiredParams(config, timestamp, nonce)
    ensures p1 == AddOptional(config, r, ("callback", "oauth_callback"))
    ensures p2 == AddOptional(config, p1, ("token", "oauth_token"))
    ensures p3 == AddOptional(config, p2, ("verifier", "oauth_verifier"))
    ensures OauthParams(config, timestamp, nonce) == AddOptional(config, p3, ("version", "oauth_version"))
    ensures DistinctKeys(r) && forall k :: k in OptionalNames ==> Lookup(r, k) == None
  {
    r := RequiredParams(config, timestamp, nonce);
    RequiredParamsContents(config, timestamp, nonce);
    OauthParamsUnfold(config, timestamp, nonce);
    p1 := AddOptional(config, r, ("callback", "oauth_callback"));
    p2 := AddOptional(config, p1, ("token", "oauth_token"));
    p3 := AddOptional(config, p2, ("verifier", "oauth_verifier"));
    NamesApart();
  }

  /** No optional parameter has the name of a required one. */
  lemma NamesApart()
    ensures forall k :: k in OptionalNames ==> k !in RequiredNames
  {
  }

  /** The required parameters always carry their values, and no key repeats. */
  lemma OauthParamsRequired(config: Assoc<Value>, timestamp: int, nonce: string)
    ensures var p := OauthParams(config, timestamp, nonce);
      && DistinctKeys(p)
      && Lookup(p, "oauth_consumer_key") == Some(Get(config, "consumer_key"))
      && Lookup(p, "oauth_nonce") == Some(Str(nonce))
      && Lookup(p, "oauth_signature_method") == Some(Get(config, "signature_method"))
      && Lookup(p, "oauth_timestamp") == Some(Int(timestamp))
  {
    var r, p1, p2, p3 := OauthParamsSteps(config, timestamp, nonce);
    RequiredParamsContents(config, timestamp, nonce);
    AddOptionalLookup(config, r, ("callback", "oauth_callback"));
    AddOptionalLookup(config, p1, ("token", "oauth_token"));
    AddOptionalLookup(config, p2, ("verifier", "oauth_verifier"));
    AddOptionalLookup(config, p3, ("version", "oauth_version"));
  }

  /** An optional parameter is present exactly when its option is set, with
      the option's value. */
  lemma OauthParamsOptional(config: Assoc<Value>, timestamp: int, nonce: string)
    ensures var p := OauthParams(config, timestamp, nonce);
      && Lookup(p, "oauth_callback") == (if IsSet(config, "callback") then Some(Get(config, "callback")) else None)
      && Lookup(p, "oauth_token") == (if IsSet(config, "token") then Some(Get(config, "token")) else None)
      && Lookup(p, "oauth_verifier") == (if IsSet(config, "verifier") then Some(Get(config, "verifier")) else None)
      && Lookup(p, "oauth_version") == (if IsSet(config, "version") then Some(Get(config, "version")) else None)
  {
    var r, p1, p2, p3 := OauthParamsSteps(config, timestamp, nonce);
    AddOptionalLookup(config, r, ("callback", "oauth_callback"));
    AddOptionalLookup(config, p1, ("token", "oauth_token"));
    AddOptionalLookup(config, p2, ("verifier", "oauth_verifier"));
    AddOptionalLookup(config, p3, ("version", "oauth_version"));
  }

  /** No key other than the eight protocol parameters occurs. */
  lemma OauthParamsKeys(config: Assoc<Value>, timestamp: int, nonce: string)
    ensures forall k :: HasKey(OauthParams(config, timestamp, nonce), k) ==> k in RequiredNames || k in OptionalNames
  {
    var r, p1, p2, p3 := OauthParamsSteps(config, timestamp, nonce);
    RequiredParamsContents(config, timestamp, nonce);
    AddOptionalKeys(config, r, ("callback", "oauth_callback"));
    AddOptionalKeys(config, p1, ("token", "oauth_token"));
    AddOptionalKeys(config, p2, ("verifier", "oauth_verifier"));
    AddOptionalKeys(config, p3, ("version", "oauth_version"));
  }

  /** Adding an optional parameter adds no key but its own. */
  lemma AddOptionalKeys(config: Assoc<Value>, params: Assoc<Value>, opt: (string, string))
    ensures forall k :: HasKey(AddOptional(config, params, opt), k) ==> HasKey(params, k) || k == opt.1
  {
    var r := AddOptional(config, params, opt);
    forall k | HasKey(r, k) && k != opt.1 ensures HasKey(params, k) {
      AddOptionalLookup(config, params, opt);
      assert Lookup(r, k).Some?;
    }
  }

  const RequiredNames: set<string> := {"oauth_consumer_key", "oauth_nonce", "oauth_signature_method", "oauth_timestamp"}

  /** Every key getOauthParams can produce beyond the required ones. */
  const OptionalNames: set<string> := {"oauth_callback", "oauth_token", "oauth_verifier", "oauth_version"}

  // ---------------------------------------------------------------------
  // Parameters to sign

  /** getSignablePostFields: the POST fields, unless disabled or the body is
      not a POST aggregate; the content type is not consulted. */
  function SignablePostFields(config: Assoc<Value>, req: Request): Assoc<Value>
    reads req
  {
    if !Truthy(Get(config, "disable_post_params")) && req.body.PostFields? then req.body.fields else []
  }

  /** getParamsToSign: protocol parameters, then query parameters, then POST
      fields, each earlier source winning on a shared key; sorted by key. */
  function ParamsToSign(config: Assoc<Value>, req: Request, timestamp: int, nonce: string): Assoc<Value>
    reads req
  {
    var p := Union(OauthParams(config, timestamp, nonce), req.url.query);
    var fields := SignablePostFields(config, req);
    KSort(if fields != [] then Union(p, fields) else p)
  }

  predicate SignsPostFields(config: Assoc<Value>, req: Request)
    reads req
  {
    !Truthy(Get(config, "disable_post_params")) && req.body.PostFields?
  }

  lemma ParamsToSignPrecedence(config: Assoc<Value>, req: Request, timestamp: int, nonce: string, k: string)
    requires DistinctKeys(req.url.query)
    requires req.body.PostFields? ==> DistinctKeys(req.body.fields)
    ensures StrictlySorted(ParamsToSign(config, req, timestamp, nonce))
    ensures var oauth := OauthParams(config, timestamp, nonce);
      Lookup(ParamsToSign(config, req, timestamp, nonce), k) ==
        if HasKey(oauth, k) then Lookup(oauth, k)
        else if HasKey(req.url.query, k) then Lookup(req.url.query, k)
        else if SignsPostFields(config, req) then Lookup(req.body.fields, k)
        else None
  {
    OauthParamsRequired(config, timestamp, nonce);
  }

  // ---------------------------------------------------------------------
  // Normalising the parameters

  /** Appending an entry whose key is not below any earlier key keeps a
      sequence sorted. */
  lemma SortedSnoc(front: Assoc<Value>, s: Assoc<Value>, x: (string, Value))
    requires s != [] && x.0 == s[|s| - 1].0
    requires forall k :: HasKey(front, k) ==> HasKey(s[..|s| - 1], k)
    ensures Sorted(s) && Sorted(front) ==> Sorted(front + [x])
  {
    if Sorted(s) && Sorted(front) {
      forall i | 0 <= i < |front| ensures !Less(x.0, front[i].0) {
        assert HasKey(front, front[i].0);
        var m :| 0 <= m < |s| - 1 && s[..|s| - 1][m].0 == front[i].0;
        assert s[m].0 == front[i].0;
      }
    }
  }

  /** prepareParameters' treatment of already sorted entries: nulls are
      dropped, booleans become 'true'/'false', arrays are prepared
      recursively, anything else is kept. */
  function PrepareSeq(s: Assoc<Value>, ghost orig: Assoc<Value>): (r: Assoc<Value>)
    requires forall j :: 0 <= j < |s| ==> s[j] in orig
    ensures forall j :: 0 <= j < |r| ==> r[j].1 != Null && !r[j].1.Bool?
    ensures forall k :: HasKey(r, k) ==> HasKey(s, k)
    ensures Sorted(s) ==> Sorted(r)
    decreases Arr(orig), 0, |s|
  {
    if s == [] then []
    else
      var e := s[|s| - 1];
      assert e in orig;
      var init := s[..|s| - 1];
      var front := PrepareSeq(init, orig);
      assert forall k :: HasKey(init, k) ==> HasKey(s, k);
      assert Sorted(s) ==> Sorted(init);
      match e.1
      case Null => front
      case Bool(b) =>
        var x := (e.0, Str(if b then "true" else "false"));
        SortedSnoc(front, s, x);
        front + [x]
      case Arr(es) =>
        var x := (e.0, Arr(Prepared(es)));
        SortedSnoc(front, s, x);
        front + [x]
      case _ =>
        SortedSnoc(front, s, e);
        front + [e]
  }

  /** prepareParameters, as a function: sort by key, then prepare each value. */
  function Prepared(data: Assoc<Value>): Assoc<Value>
    decreases Arr(data), 1
  {
    PrepareSeq(KSort(data), data)
  }

  /** What one lookup in the prepared array gives. */
  ghost function PrepareOne(o: Option<Value>): Option<Value> {
    match o
    case None => None
    case Some(Null) => None
    case Some(Bool(b)) => Some(Str(if b then "true" else "false"))
    case Some(Arr(es)) => Some(Arr(Prepared(es)))
    case Some(v) => Some(v)
  }

  lemma {:induction false} PrepareSeqLookup(s: Assoc<Value>, orig: Assoc<Value>, k: string)
    requires forall j :: 0 <= j < |s| ==> s[j] in orig
    requires DistinctKeys(s)
    ensures Lookup(PrepareSeq(s, orig), k) == PrepareOne(Lookup(s, k))
    decreases |s|
  {
    if s != [] {
      var e := s[|s| - 1];
      var init := s[..|s| - 1];
      assert init + [e] == s;
      LookupSnoc(init, e);
      PrepareSeqLookup(init, orig, k);
      assert !HasKey(init, e.0);
      var front := PrepareSeq(init, orig);
      assert !HasKey(front, e.0);
      match e.1
      case Null =>
      case Bool(b) => LookupSnoc(front, (e.0, Str(if b then "true" else "false")));
      case Arr(es) => LookupSnoc(front, (e.0, Arr(Prepared(es))));
      case Int(_) => LookupSnoc(front, e);
      case Str(_) => LookupSnoc(front, e);
    }
  }

  lemma {:induction false} PrepareSeqDistinct(s: Assoc<Value>, orig: Assoc<Value>)
    requires forall j :: 0 <= j < |s| ==> s[j] in orig
    requires DistinctKeys(s)
    ensures DistinctKeys(PrepareSeq(s, orig))
    decreases |s|
  {
    if s != [] {
      var init := s[..|s| - 1];
      PrepareSeqDistinct(init, orig);
      assert !HasKey(init, s[|s| - 1].0);
    }
  }

  /** The prepared parameters are sorted by key and hold no null or boolean;
      each key keeps its value, converted as prepareParameters converts it. */
  lemma PreparedContents(data: Assoc<Value>)
    requires DistinctKeys(data)
    ensures StrictlySorted(Prepared(data))
    ensures forall j :: 0 <= j < |Prepared(data)| ==> Prepared(data)[j].1 != Null && !Prepared(data)[j].1.Bool?
    ensures forall k :: Lookup(Prepared(data), k) == PrepareOne(Lookup(data, k))
  {
    var sorted := KSort(data);
    forall k ensures Lookup(Prepared(data), k) == PrepareOne(Lookup(data, k)) {
      PrepareSeqLookup(sorted, data, k);
    }
    PrepareSeqDistinct(sorted, data);
    SortedDistinctIsStrict(Prepared(data));
  }

  /** The effect of one loop iteration on the array being rewritten. */
  ghost function Rewrite(cur: Assoc<Value>, e: (string, Value)): Assoc<Value> {
    match e.1
    case Null => Remove(cur, e.0)
    case Bool(b) => Put(cur, e.0, Str(if b then "true" else "false"))
    case Arr(es) => Put(cur, e.0, Arr(Prepared(es)))
    case _ => cur
  }

  /** After i iterations the first i entries are prepared and the rest are
      untouched; one more iteration rewrites entry i in place. */
  lemma PrepareStep(sorted: Assoc<Value>, orig: Assoc<Value>, i: nat)
    requires forall j :: 0 <= j < |sorted| ==> sorted[j] in orig
    requires DistinctKeys(sorted) && i < |sorted|
    ensures PrepareSeq(sorted[..i + 1], orig) + sorted[i + 1..]
         == Rewrite(PrepareSeq(sorted[..i], orig) + sorted[i..], sorted[i])
  {
    var done := PrepareSeq(sorted[..i], orig);
    PrepareSeqSnoc(sorted, orig, i);
    HeadRest(sorted, i, done);
    DistinctAround(sorted, i);
    PieceRewrite(done, sorted[i], sorted[i + 1..]);
  }

  /** What the preparation of one entry appends: nothing for a null. */
  ghost function Piece(e: (string, Value)): Assoc<Value> {
    match e.1
    case Null => []
    case Bool(b) => [(e.0, Str(if b then "true" else "false"))]
    case Arr(es) => [(e.0, Arr(Prepared(es)))]
    case _ => [e]
  }

  lemma PrepareSeqSnoc(sorted: Assoc<Value>, orig: Assoc<Value>, i: nat)
    requires forall j :: 0 <= j < |sorted| ==> sorted[j] in orig
    requires i < |sorted|
    ensures PrepareSeq(sorted[..i + 1], orig) == PrepareSeq(sorted[..i], orig) + Piece(sorted[i])
  {
    assert sorted[..i + 1][..i] == sorted[..i];
    assert sorted[..i + 1][i] == sorted[i];
    assert PrepareSeq(sorted[..i], orig) + [] == PrepareSeq(sorted[..i], orig);
  }

  lemma HeadRest(sorted: Assoc<Value>, i: nat, done: Assoc<Value>)
    requires i < |sorted|
    ensures done + sorted[i..] == done + [sorted[i]] + sorted[i + 1..]
  {
    assert sorted[i..] == [sorted[i]] + sorted[i + 1..];
  }

  /** In an array with distinct keys, no entry before or after the `i`-th has its key. */
  lemma DistinctAround(sorted: Assoc<Value>, i: nat)
    requires DistinctKeys(sorted) && i < |sorted|
    ensures !HasKey(sorted[..i], sorted[i].0) && !HasKey(sorted[i + 1..], sorted[i].0)
  {
    var pre, post := sorted[..i], sorted[i + 1..];
    forall j | 0 <= j < |pre| ensures pre[j].0 != sorted[i].0 {
      assert pre[j] == sorted[j];
    }
    forall j | 0 <= j < |post| ensures post[j].0 != sorted[i].0 {
      assert post[j] == sorted[i + 1 + j];
    }
  }

  /** Rewriting the entry between `done` and `rest` in place. */
  lemma PieceRewrite(done: Assoc<Value>, e: (string, Value), rest: Assoc<Value>)
    requires !HasKey(done, e.0) && !HasKey(rest, e.0)
    ensures done + Piece(e) + rest == Rewrite(done + [e] + rest, e)
  {
    match e.1
    case Null =>
      RemoveAtKey(done, e, rest);
      assert done + [] == done;
    case Bool(b) => PutAtKey(done, e, rest, Str(if b then "true" else "false"));
    case Arr(es) => PutAtKey(done, e, rest, Arr(Prepared(es)));
    case Int(_) =>
    case Str(_) =>
  }

  /** prepareParameters: sorts a copy, then rewrites it entry by entry,
      unsetting nulls and replacing booleans, and arrays by their own
      prepared form, at their key. */
  /** The sorted entries of a PHP array are its own, one per key. */
  lemma SortedFrom(data: Assoc<Value>)
    requires WellFormed(Arr(data))
    ensures DistinctKeys(KSort(data))
    ensures forall j :: 0 <= j < |KSort(data)| ==> KSort(data)[j] in data
  {
  }

  method PrepareParameters(data: Assoc<Value>) returns (r: Assoc<Value>)
    requires WellFormed(Arr(data))
    ensures r == Prepared(data)
    decreases Arr(data), 2
  {
    var sorted := KSort(data);
    SortedFrom(data);
    r := PrepareSorted(sorted, data);
  }

  /** The loop over the sorted entries. */
  method PrepareSorted(sorted: Assoc<Value>, ghost data: Assoc<Value>) returns (r: Assoc<Value>)
    requires WellFormed(Arr(data)) && DistinctKeys(sorted)
    requires forall j :: 0 <= j < |sorted| ==> sorted[j] in data
    ensures r == PrepareSeq(sorted, data)
    decreases Arr(data), 1
  {
    r := sorted;
    var i := 0;
    while i < |sorted|
      invariant 0 <= i <= |sorted|
      invariant r == PrepareSeq(sorted[..i], data) + sorted[i..]
    {
      PrepareStep(sorted, data, i);
      r := PrepareEntry(r, sorted[i], data);
      i := i + 1;
    }
    assert sorted[..|sorted|] == sorted;
  }

  /** One iteration: drop a null, spell out a boolean, prepare a nested
      array, keep anything else. */
  method PrepareEntry(cur: Assoc<Value>, e: (string, Value), ghost data: Assoc<Value>) returns (next: Assoc<Value>)
    requires WellFormed(Arr(data)) && e in data
    ensures next == Rewrite(cur, e)
    decreases Arr(data), 0
  {
    var (key, value) := e;
    match value {
      case Null =>
        next := Remove(cur, key);
      case Arr(es) =>
        ghost var j :| 0 <= j < |data| && data[j] == e;
        var sub := PrepareParameters(es);
        next := Put(cur, key, Arr(sub));
      case Bool(b) =>
        next := Put(cur, key, Str(if b then "true" else "false"));
      case _ =>
        next := cur;
    }
  }

  // ---------------------------------------------------------------------
  // String to sign and signature

  /** getStringToSign: upper-cased method, encoded base URL (query and
      fragment removed) and encoded parameter string, joined by '&'. */
  function StringToSign(config: Assoc<Value>, req: Request, timestamp: int, nonce: string,
                        queryString: Assoc<Value> -> string): string
    reads req
  {
    Upper(req.verb) + "&" + RawUrlEncode(req.url.base) + "&"
      + RawUrlEncode(queryString(Prepared(ParamsToSign(config, req, timestamp, nonce))))
  }

  /** Upper-casing introduces no character outside the letters. */
  lemma UpperKeepsOut(s: string, c: char)
    requires c !in s && !('A' <= c <= 'Z')
    ensures c !in Upper(s)
  {
    forall i | 0 <= i < |s| ensures Upper(s)[i] != c {
      assert s[i] != c;
    }
  }

  /** Three '&'-free pieces joined by '&' split back into those pieces. */
  lemma ThreeParts(a: string, b: string, c: string)
    requires '&' !in a && '&' !in b && '&' !in c
    ensures Explode('&', a + "&" + b + "&" + c, 4) == [a, b, c]
    ensures Count(a + "&" + b + "&" + c, '&') == 2
  {
    assert Join([a, b, c], "&") == a + "&" + b + "&" + c by {
      assert [a, b, c][1..] == [b, c];
      assert [b, c][1..] == [c];
    }
    ExplodeJoin('&', [a, b, c], 4);
    CountAppend(a, "&", '&');
    CountAppend(a + "&", b, '&');
    CountAppend(a + "&" + b, "&", '&');
    CountAppend(a + "&" + b + "&", c, '&');
  }

  /** The string to sign splits at '&' into exactly its three components, and
      the middle one decodes back to the base URL. */
  lemma StringToSignParts(config: Assoc<Value>, req: Request, timestamp: int, nonce: string,
                          queryString: Assoc<Value> -> string)
    requires '&' !in req.verb
    ensures var s := StringToSign(config, req, timestamp, nonce, queryString);
      && Explode('&', s, 4) == [Upper(req.verb), RawUrlEncode(req.url.base),
                                RawUrlEncode(queryString(Prepared(ParamsToSign(config, req, timestamp, nonce))))]
      && Count(s, '&') == 2
    ensures IsByteString(req.url.base) ==>
      PercentDecode(Explode('&', StringToSign(config, req, timestamp, nonce, queryString), 4)[1], false) == req.url.base
  {
    var a := Upper(req.verb);
    var b := RawUrlEncode(req.url.base);
    var c := RawUrlEncode(queryString(Prepared(ParamsToSign(config, req, timestamp, nonce))));
    UpperKeepsOut(req.verb, '&');
    ThreeParts(a, b, c);
    if IsByteString(req.url.base) { RawUrlEncodeRoundTrip(req.url.base); }
  }

  /** getSignature's key: the url-encoded consumer secret and token secret. */
  function SigningKey(config: Assoc<Value>): string {
    UrlEncode(ToPhpString(Get(config, "consumer_secret"))) + "&" + UrlEncode(ToPhpString(Get(config, "token_secret")))
  }

  /** The key splits at its one '&' into the two encoded secrets, each of
      which decodes back to the configured secret. */
  lemma SigningKeyParts(config: Assoc<Value>)
    ensures var cs, ts := ToPhpString(Get(config, "consumer_secret")), ToPhpString(Get(config, "token_secret"));
      && Explode('&', SigningKey(config), 3) == [UrlEncode(cs), UrlEncode(ts)]
      && (IsByteString(cs) ==> PercentDecode(UrlEncode(cs), true) == cs)
      && (IsByteString(ts) ==> PercentDecode(UrlEncode(ts), true) == ts)
  {
    var cs, ts := ToPhpString(Get(config, "consumer_secret")), ToPhpString(Get(config, "token_secret"));
    assert Join([UrlEncode(cs), UrlEncode(ts)], "&") == SigningKey(config) by {
      assert [UrlEncode(cs), UrlEncode(ts)][1..] == [UrlEncode(ts)];
    }
    ExplodeJoin('&', [UrlEncode(cs), UrlEncode(ts)], 3);
    if IsByteString(cs) { UrlEncodeRoundTrip(cs); }
    if IsByteString(ts) { UrlEncodeRoundTrip(ts); }
  }

  /** getSignature: base64 of the callback's output on the string to sign and the key. */
  function Signature(config: Assoc<Value>, req: Request, timestamp: int, nonce: string,
                     queryString: Assoc<Value> -> string, sign: (string, string) -> string,
                     base64: string -> string): string
    reads req
  {
    base64(sign(StringToSign(config, req, timestamp, nonce, queryString), SigningKey(config)))
  }

  /** With the nonce and timestamp fixed, the signature depends only on the
      method, the URL without its fragment and the body: two such requests
      sign identically, whatever their headers. */
  lemma SignatureDeterministic(config: Assoc<Value>, r1: Request, r2: Request, timestamp: int, nonce: string,
                               queryString: Assoc<Value> -> string, sign: (string, string) -> string,
                               base64: string -> string)
    requires r1.verb == r2.verb && r1.url.base == r2.url.base && r1.url.query == r2.url.query
    requires r1.body == r2.body
    ensures Signature(config, r1, timestamp, nonce, queryString, sign, base64)
         == Signature(config, r2, timestamp, nonce, queryString, sign, base64)
  {
    assert SignablePostFields(config, r1) == SignablePostFields(config, r2);
    assert ParamsToSign(config, r1, timestamp, nonce) == ParamsToSign(config, r2, timestamp, nonce);
  }

  // ---------------------------------------------------------------------
  // Authorization header

  function Rendered(e: (string, Value)): string {
    e.0 + "=\"" + UrlEncode(ToPhpString(e.1)) + "\""
  }

  function TruthyEntries(a: Assoc<Value>): (r: Assoc<Value>)
    ensures forall i :: 0 <= i < |r| ==> r[i] in a && Truthy(r[i].1)
    ensures forall k :: HasKey(r, k) ==> HasKey(a, k)
    decreases |a|
  {
    if a == [] then []
    else
      var front := TruthyEntries(a[..|a| - 1]);
      assert forall k :: HasKey(a[..|a| - 1], k) ==> HasKey(a, k);
      if Truthy(a[|a| - 1].1) then front + [a[|a| - 1]] else front
  }

  function RenderAll(a: Assoc<Value>): (r: seq<string>)
    ensures |r| == |a|
    decreases |a|
  {
    if a == [] then [] else RenderAll(a[..|a| - 1]) + [Rendered(a[|a| - 1])]
  }

  /** The header as specified: 'OAuth ' and the rendered non-falsy entries in
      key order, separated by ', '. */
  function AuthorizationHeader(params: Assoc<Value>): string {
    "OAuth " + Join(RenderAll(TruthyEntries(KSort(params))), ", ")
  }

  /** Each rendered string followed by the separator, as the loop appends them. */
  function Terminated(xs: seq<string>, sep: string): string
    decreases |xs|
  {
    if xs == [] then "" else Terminated(xs[..|xs| - 1], sep) + xs[|xs| - 1] + sep
  }

  lemma {:induction false} TerminatedJoin(xs: seq<string>, sep: string)
    requires xs != []
    ensures Terminated(xs, sep) == Join(xs, sep) + sep
    decreases |xs|
  {
    var init := xs[..|xs| - 1];
    if init != [] {
      TerminatedJoin(init, sep);
      assert init + [xs[|xs| - 1]] == xs;
      JoinSnoc(init, xs[|xs| - 1], sep);
    }
  }

  /** The header's entries are exactly the non-falsy parameters, each once,
      in ascending key order. */
  lemma AuthorizationEntries(params: Assoc<Value>)
    requires DistinctKeys(params)
    ensures var e := TruthyEntries(KSort(params));
      && StrictlySorted(e)
      && (forall i :: 0 <= i < |e| ==> e[i] in params && Truthy(e[i].1))
      && (forall i :: 0 <= i < |params| && Truthy(params[i].1) ==> params[i] in e)
  {
    var sorted := KSort(params);
    var e := TruthyEntries(sorted);
    TruthySubsequence(sorted);
    forall i | 0 <= i < |e| ensures e[i] in params {
      SortedMember(params, e[i]);
    }
    forall i | 0 <= i < |params| && Truthy(params[i].1) ensures params[i] in e {
      TruthyFound(params, i);
    }
  }

  lemma SortedMember(params: Assoc<Value>, x: (string, Value))
    requires x in KSort(params)
    ensures x in params
  {
    var sorted := KSort(params);
    var j :| 0 <= j < |sorted| && sorted[j] == x;
  }

  /** A truthy entry of an array with distinct keys survives sorting and filtering. */
  lemma TruthyFound(params: Assoc<Value>, i: nat)
    requires DistinctKeys(params) && i < |params| && Truthy(params[i].1)
    ensures params[i] in TruthyEntries(KSort(params))
  {
    var sorted := KSort(params);
    var k := params[i].0;
    assert HasKey(params, k);
    assert HasKey(sorted, k);
    var j :| 0 <= j < |sorted| && sorted[j].0 == k;
    assert Lookup(sorted, k) == Some(sorted[j].1);
    assert Lookup(params, k) == Some(params[i].1);
    assert sorted[j] == params[i];
    TruthyKeeps(sorted, j);
  }

  lemma {:induction false} TruthyKeeps(a: Assoc<Value>, j: nat)
    requires j < |a| && Truthy(a[j].1)
    ensures a[j] in TruthyEntries(a)
    decreases |a|
  {
    if j < |a| - 1 {
      assert a[..|a| - 1][j] == a[j];
      TruthyKeeps(a[..|a| - 1], j);
    }
  }

  lemma {:induction false} TruthySubsequence(a: Assoc<Value>)
    requires StrictlySorted(a)
    ensures StrictlySorted(TruthyEntries(a))
    decreases |a|
  {
    if a != [] {
      var init := a[..|a| - 1];
      TruthySubsequence(init);
      var front := TruthyEntries(init);
      forall i | 0 <= i < |front| ensures Less(front[i].0, a[|a| - 1].0) {
        assert front[i] in init;
      }
    }
  }

  /** The header text after one more entry of the sorted parameters. */
  lemma RenderPrefix(sorted: Assoc<Value>, i: nat)
    requires i < |sorted|
    ensures Terminated(RenderAll(TruthyEntries(sorted[..i + 1])), ", ")
         == Terminated(RenderAll(TruthyEntries(sorted[..i])), ", ")
            + (if Truthy(sorted[i].1) then Rendered(sorted[i]) + ", " else "")
  {
    assert sorted[..i + 1][..i] == sorted[..i];
    var t := TruthyEntries(sorted[..i]);
    if Truthy(sorted[i].1) {
      assert (t + [sorted[i]])[..|t|] == t;
      var rs := RenderAll(t + [sorted[i]]);
      assert rs == RenderAll(t) + [Rendered(sorted[i])];
      assert rs[..|rs| - 1] == RenderAll(t);
    }
  }

  lemma AppendStep(prefix: string, entries: Assoc<Value>, i: nat, s: string)
    requires i < |entries|
    requires s == prefix + Terminated(RenderAll(TruthyEntries(entries[..i])), ", ")
    ensures (if Truthy(entries[i].1) then s + (Rendered(entries[i]) + ", ") else s)
         == prefix + Terminated(RenderAll(TruthyEntries(entries[..i + 1])), ", ")
  {
    RenderPrefix(entries, i);
    var t := Terminated(RenderAll(TruthyEntries(entries[..i])), ", ");
    if Truthy(entries[i].1) {
      Regroup(prefix, t, Rendered(entries[i]) + ", ");
    } else {
      assert t + "" == t;
    }
  }

  lemma Regroup(a: string, b: string, c: string)
    ensures (a + b) + c == a + (b + c)
  {
  }

  /** Dropping the trailing separator from the accumulated text. */
  lemma TrimmedHeader(params: Assoc<Value>, s: string)
    requires s == "OAuth " + Terminated(RenderAll(TruthyEntries(KSort(params))), ", ")
    ensures |s| >= 2
    ensures TruthyEntries(KSort(params)) != [] ==> s[..|s| - 2] == AuthorizationHeader(params)
    ensures TruthyEntries(KSort(params)) == [] ==> s[..|s| - 2] == "OAut"
  {
    TrimmedText(RenderAll(TruthyEntries(KSort(params))), s);
  }

  lemma TrimmedText(entries: seq<string>, s: string)
    requires s == "OAuth " + Terminated(entries, ", ")
    ensures |s| >= 2
    ensures entries != [] ==> s[..|s| - 2] == "OAuth " + Join(entries, ", ")
    ensures entries == [] ==> s[..|s| - 2] == "OAut"
  {
    if entries != [] {
      TerminatedJoin(entries, ", ");
      DropSeparator("OAuth " + Join(entries, ", "), s);
    } else {
      DropIntoPrefix(s);
    }
  }

  lemma DropSeparator(x: string, s: string)
    requires s == x + ", "
    ensures |s| >= 2 && s[..|s| - 2] == x
  {
  }

  lemma DropIntoPrefix(s: string)
    requires s == "OAuth " + ""
    ensures |s| >= 2 && s[..|s| - 2] == "OAut"
  {
  }

  /** The loop of buildAuthorizationHeader: `key="value", ` appended for
      every non-falsy entry, in order. */
  method AppendEntries(prefix: string, entries: Assoc<Value>) returns (s: string)
    ensures s == prefix + Terminated(RenderAll(TruthyEntries(entries)), ", ")
  {
    s := prefix;
    for i := 0 to |entries|
      invariant s == prefix + Terminated(RenderAll(TruthyEntries(entries[..i])), ", ")
    {
      AppendStep(prefix, entries, i, s);
      if Truthy(entries[i].1) {
        s := s + (Rendered(entries[i]) + ", ");
      }
    }
    assert entries[..|entries|] == entries;
  }

  /** buildAuthorizationHeader: appends `key="value", ` per non-falsy entry of
      the sorted parameters, then drops the last two characters. With no such
      entry that cuts into the prefix and leaves "OAut". */
  method BuildAuthorizationHeader(params: Assoc<Value>) returns (h: string)
    ensures TruthyEntries(KSort(params)) != [] ==> h == AuthorizationHeader(params)
    ensures TruthyEntries(KSort(params)) == [] ==> h == "OAut"
  {
    var s := AppendEntries("OAuth ", KSort(params));
    TrimmedHeader(params, s);
    h := s[..|s| - 2];
  }

  // ---------------------------------------------------------------------
  // Signing a request

  /** `$query->set($key, $value)` for every parameter in turn: later
      parameters win and new keys are appended. */
  method SetAll(query: Assoc<Value>, params: Assoc<Value>) returns (q: Assoc<Value>)
    ensures q == Merge(query, params)
  {
    q := query;
    for i := 0 to |params|
      invariant q == Merge(query, params[..i])
    {
      MergePrefix(query, params, i);
      q := Put(q, params[i].0, params[i].1);
    }
    assert params[..|params|] == params;
  }

  /** onRequestBeforeSend: computes the protocol parameters and signature on
      the request as it stands, then attaches them as the Authorization header
      or as query parameters; any other request method is rejected. */
  method OnRequestBeforeSend(config: Assoc<Value>, req: Request, timestamp: int, nonce: string,
                             queryString: Assoc<Value> -> string, sign: (string, string) -> string,
                             base64: string -> string)
    returns (r: Result<Assoc<Value>, SignError>)
    modifies req
    ensures var params := Put(OauthParams(config, timestamp, nonce), "oauth_signature",
                              Str(old(Signature(config, req, timestamp, nonce, queryString, sign, base64))));
      var mode := Get(config, "request_method");
      && req.verb == old(req.verb) && req.body == old(req.body)
      && (mode == Str(HeaderMethod) ==>
            && r == Ok(params)
            && req.url == old(req.url)
            && req.headers == SetHeader(old(req.headers), "Authorization",
                                  if TruthyEntries(KSort(params)) == [] then "OAut" else AuthorizationHeader(params)))
      && (mode == Str(QueryMethod) ==>
            && r == Ok(params)
            && req.headers == old(req.headers)
            && req.url == old(req.url).(query := Merge(old(req.url.query), params)))
      && (mode != Str(HeaderMethod) && mode != Str(QueryMethod) ==>
            && r == Err(InvalidArgument("Invalid consumer method \"" + ToPhpString(mode) + "\""))
            && req.url == old(req.url) && req.headers == old(req.headers))
  {
    var authorizationParams := GetOauthParams(config, timestamp, nonce);
    var signature := Signature(config, req, timestamp, nonce, queryString, sign, base64);
    authorizationParams := Put(authorizationParams, "oauth_signature", Str(signature));
    r := PlaceParams(Get(config, "request_method"), authorizationParams, req);
  }

  /** The switch on the request method: the signed parameters go into the
      Authorization header or into the query string; any other method is
      refused and the request is left as it was. */
  method PlaceParams(mode: Value, params: Assoc<Value>, req: Request) returns (r: Result<Assoc<Value>, SignError>)
    modifies req
    ensures req.verb == old(req.verb) && req.body == old(req.body)
    ensures mode == Str(HeaderMethod) ==>
      && r == Ok(params)
      && req.url == old(req.url)
      && req.headers == SetHeader(old(req.headers), "Authorization",
                            if TruthyEntries(KSort(params)) == [] then "OAut" else AuthorizationHeader(params))
    ensures mode == Str(QueryMethod) ==>
      && r == Ok(params)
      && req.headers == old(req.headers)
      && req.url == old(req.url).(query := Merge(old(req.url.query), params))
    ensures mode != Str(HeaderMethod) && mode != Str(QueryMethod) ==>
      && r == Err(InvalidArgument("Invalid consumer method \"" + ToPhpString(mode) + "\""))
      && req.url == old(req.url) && req.headers == old(req.headers)
  {
    MethodsDiffer();
    if mode == Str(HeaderMethod) {
      var header := BuildAuthorizationHeader(params);
      req.headers := SetHeader(req.headers, "Authorization", header);
      r := Ok(params);
    } else if mode == Str(QueryMethod) {
      var query := SetAll(req.url.query, params);
      req.url := req.url.(query := query);
      r := Ok(params);
    } else {
      r := Err(InvalidArgument("Invalid consumer method \"" + ToPhpString(mode) + "\""));
    }
  }
}
