/** The POST body aggregate (src/Message/Post/PostBody.php): fields, files
    and a force-multipart flag, plus a lazily built body stream that is
    cached until the fields or files change. Streams are described by what
    they were built from; the query-string renderer, the random multipart
    boundary and the size of a multipart stream are supplied from outside. */
module Post {
  import opened Php

  /** A file to upload; its content is not part of this model. */
  datatype PostFile = PostFile(name: string, filename: string)

  /** How multi-valued fields are joined into a query string. */
  datatype Aggregator = PhpAggregator | CustomAggregator(id: nat)

  /** No percent-encoding (inside multipart parts) or RFC 1738 (form bodies). */
  datatype Encoding = NoEncoding | Rfc1738

  /** A body stream built by getBody. */
  datatype Stream =
    | MultipartStream(parts: Assoc<Value>, files: seq<PostFile>, boundary: string)
    | UrlEncodedStream(text: string)
    | EmptyStream

  /** A request, as far as applyRequestHeaders touches it. */
  class Request {
    var headers: Assoc<string>

    constructor (headers: Assoc<string>)
      ensures this.headers == headers
    {
      this.headers := headers;
    }
  }

  /** Calling a method the cached stream does not have is a fatal error. */
  datatype PostError = UndefinedMethod(name: string)

  const MultipartPrefix := "multipart/form-data; boundary="
  const FormContentType := "application/x-www-form-urlencoded"

  /** getAggregator: the configured aggregator, PHP-style by default. */
  function EffectiveAggregator(a: Option<Aggregator>): Aggregator {
    if a.Some? then a.value else PhpAggregator
  }

  /** Multipart parts cannot hold arrays: each array-valued field becomes the
      query string of that one field, unencoded. */
  function Flatten(fields: Assoc<Value>, agg: Aggregator, render: (Assoc<Value>, Aggregator, Encoding) -> string): Assoc<Value>
    decreases |fields|
  {
    if fields == [] then []
    else
      var (name, v) := fields[|fields| - 1];
      Flatten(fields[..|fields| - 1], agg, render)
        + [if v.Arr? then (name, Str(render([(name, v)], agg, NoEncoding))) else (name, v)]
  }

  /** Flattening keeps every field in place under its name, passes scalars
      through, replaces exactly the arrays, and leaves no array behind. */
  lemma {:induction false} FlattenEntries(fields: Assoc<Value>, agg: Aggregator, render: (Assoc<Value>, Aggregator, Encoding) -> string)
    ensures var r := Flatten(fields, agg, render);
      && |r| == |fields|
      && (forall i :: 0 <= i < |r| ==> r[i].0 == fields[i].0 && !r[i].1.Arr?)
      && (forall i :: 0 <= i < |r| && !fields[i].1.Arr? ==> r[i].1 == fields[i].1)
      && (forall i :: 0 <= i < |r| && fields[i].1.Arr? ==> r[i].1 == Str(render([fields[i]], agg, NoEncoding)))
    decreases |fields|
  {
    if fields != [] {
      FlattenEntries(fields[..|fields| - 1], agg, render);
    }
  }

  lemma FlattenKeepsKeys(fields: Assoc<Value>, agg: Aggregator, render: (Assoc<Value>, Aggregator, Encoding) -> string)
    ensures KeysOf(Flatten(fields, agg, render)) == KeysOf(fields)
    ensures DistinctKeys(fields) ==> DistinctKeys(Flatten(fields, agg, render))
  {
    FlattenEntries(fields, agg, render);
  }

  lemma FlattenPrefix(fs: Assoc<Value>, agg: Aggregator, render: (Assoc<Value>, Aggregator, Encoding) -> string, i: nat)
    requires i < |fs|
    ensures Flatten(fs[..i + 1], agg, render) == Flatten(fs[..i], agg, render)
      + [if fs[i].1.Arr? then (fs[i].0, Str(render([fs[i]], agg, NoEncoding))) else fs[i]]
    ensures |Flatten(fs[..i], agg, render)| == i
  {
    assert fs[..i + 1][..i] == fs[..i];
    FlattenEntries(fs[..i], agg, render);
  }

  lemma FlattenStep(fs: Assoc<Value>, agg: Aggregator, render: (Assoc<Value>, Aggregator, Encoding) -> string,
                    i: nat, parts: Assoc<Value>)
    requires i < |fs| == |parts| && parts == Flatten(fs[..i], agg, render) + fs[i..]
    ensures parts[i] == fs[i]
    ensures (if parts[i].1.Arr? then parts[i := (parts[i].0, Str(render([(parts[i].0, parts[i].1)], agg, NoEncoding)))] else parts)
         == Flatten(fs[..i + 1], agg, render) + fs[i + 1..]
  {
    FlattenPrefix(fs, agg, render, i);
    var f := Flatten(fs[..i], agg, render);
    assert fs[i..] == [fs[i]] + fs[i + 1..];
    assert parts == f + [fs[i]] + fs[i + 1..];
    var x := if fs[i].1.Arr? then (fs[i].0, Str(render([fs[i]], agg, NoEncoding))) else fs[i];
    assert parts[i := x] == f + [x] + fs[i + 1..];
  }

  /** createMultipart's loop: each array-valued field is replaced, in place,
      by its query string. */
  method FlattenFields(fs: Assoc<Value>, agg: Aggregator, render: (Assoc<Value>, Aggregator, Encoding) -> string)
    returns (parts: Assoc<Value>)
    ensures parts == Flatten(fs, agg, render)
  {
    parts := fs;
    for i := 0 to |fs|
      invariant |parts| == |fs|
      invariant parts == Flatten(fs[..i], agg, render) + fs[i..]
    {
      FlattenStep(fs, agg, render, i, parts);
      var (name, field) := parts[i];
      if field.Arr? {
        parts := parts[i := (name, Str(render([(name, field)], agg, NoEncoding)))];
      }
    }
    assert fs[..|fs|] == fs;
  }

  /** The body getBody builds from the current state: multipart when there
      are files or multipart is forced, URL-encoded when there are only
      fields, empty otherwise. */
  function Build(fields: Assoc<Value>, files: seq<PostFile>, force: bool, agg: Aggregator, boundary: string,
                 render: (Assoc<Value>, Aggregator, Encoding) -> string): Stream
  {
    if files != [] || force then MultipartStream(Flatten(fields, agg, render), files, boundary)
    else if fields != [] then UrlEncodedStream(render(fields, agg, Rfc1738))
    else EmptyStream
  }

  /** Exactly one encoding is chosen, and each kind of body arises exactly in
      its own case. */
  lemma BuildKinds(fields: Assoc<Value>, files: seq<PostFile>, force: bool, agg: Aggregator, boundary: string,
                   render: (Assoc<Value>, Aggregator, Encoding) -> string)
    ensures var s := Build(fields, files, force, agg, boundary, render);
      && (s.MultipartStream? <==> files != [] || force)
      && (s.UrlEncodedStream? <==> files == [] && !force && fields != [])
      && (s.EmptyStream? <==> files == [] && !force && fields == [])
      && (s.MultipartStream? ==> s.files == files && s.boundary == boundary && KeysOf(s.parts) == KeysOf(fields))
  {
    FlattenKeepsKeys(fields, agg, render);
  }

  /** The size a built stream reports: the empty stream has none, a form
      body is as long as its text, a multipart body's size is supplied. */
  function SizeOf(s: Stream, multipartSize: Stream -> Option<int>): Option<int> {
    match s
    case EmptyStream => Some(0)
    case UrlEncodedStream(text) => Some(|text|)
    case MultipartStream(_, _, _) => multipartSize(s)
  }

  class PostBody {
    var body: Option<Stream>
    var aggregator: Option<Aggregator>
    var fields: Assoc<Value>
    var files: seq<PostFile>
    var forceMultipart: bool

    /** The query-string renderer (Query::__toString) and the size of a
        multipart body, which this model does not open up. */
    const render: (Assoc<Value>, Aggregator, Encoding) -> string
    const multipartSize: Stream -> Option<int>

    /** What the cached body was built with, besides the fields and files. */
    ghost var builtForce: bool
    ghost var builtAggregator: Aggregator
    ghost var builtBoundary: string

    /** The cache invariant: a cached body was built from the current fields
        and files (the flag and aggregator may have changed since). */
    ghost predicate Valid()
      reads this
    {
      body.Some? ==> body.value == Build(fields, files, builtForce, builtAggregator, builtBoundary, render)
    }

    constructor (render: (Assoc<Value>, Aggregator, Encoding) -> string, multipartSize: Stream -> Option<int>)
      ensures Valid()
      ensures body == None && aggregator == None && fields == [] && files == [] && !forceMultipart
      ensures this.render == render && this.multipartSize == multipartSize
    {
      this.render, this.multipartSize := render, multipartSize;
      body, aggregator, fields, files, forceMultipart := None, None, [], [], false;
    }

    /** forceMultipartUpload: only the flag changes; a built body is kept. */
    method ForceMultipartUpload(force: bool)
      requires Valid()
      modifies this
      ensures Valid()
      ensures forceMultipart == force
      ensures body == old(body) && aggregator == old(aggregator) && fields == old(fields) && files == old(files)
      ensures builtForce == old(builtForce) && builtAggregator == old(builtAggregator) && builtBoundary == old(builtBoundary)
    {
      forceMultipart := force;
    }

    /** setAggregator: only the aggregator changes; a built body is kept. */
    method SetAggregator(a: Aggregator)
      requires Valid()
      modifies this
      ensures Valid()
      ensures aggregator == Some(a)
      ensures body == old(body) && forceMultipart == old(forceMultipart) && fields == old(fields) && files == old(files)
      ensures builtForce == old(builtForce) && builtAggregator == old(builtAggregator) && builtBoundary == old(builtBoundary)
    {
      aggregator := Some(a);
    }

    method SetField(name: string, value: Value)
      modifies this
      ensures Valid()
      ensures fields == Put(old(fields), name, value) && body == None
      ensures files == old(files) && forceMultipart == old(forceMultipart) && aggregator == old(aggregator)
    {
      fields := Put(fields, name, value);
      Mutate();
    }

    method ReplaceFields(newFields: Assoc<Value>)
      modifies this
      ensures Valid()
      ensures fields == newFields && body == None
      ensures files == old(files) && forceMultipart == old(forceMultipart) && aggregator == old(aggregator)
    {
      fields := newFields;
      Mutate();
    }

    method RemoveField(name: string)
      modifies this
      ensures Valid()
      ensures fields == Remove(old(fields), name) && body == None
      ensures files == old(files) && forceMultipart == old(forceMultipart) && aggregator == old(aggregator)
    {
      fields := Remove(fields, name);
      Mutate();
    }

    method AddFile(file: PostFile)
      modifies this
      ensures Valid()
      ensures files == old(files) + [file] && body == None
      ensures fields == old(fields) && forceMultipart == old(forceMultipart) && aggregator == old(aggregator)
    {
      files := files + [file];
      Mutate();
    }

    method ClearFiles()
      modifies this
      ensures Valid()
      ensures files == [] && body == None
      ensures fields == old(fields) && forceMultipart == old(forceMultipart) && aggregator == old(aggregator)
    {
      files := [];
      Mutate();
    }

    /** mutate: drops the cached body. */
    method Mutate()
      modifies this
      ensures Valid()
      ensures body == None
      ensures fields == old(fields) && files == old(files) && forceMultipart == old(forceMultipart) && aggregator == old(aggregator)
    {
      body := None;
    }

    /** detach: forgets the body, the fields and the files. */
    method Detach()
      modifies this
      ensures Valid()
      ensures body == None && fields == [] && files == []
      ensures forceMultipart == old(forceMultipart) && aggregator == old(aggregator)
    {
      body := None;
      fields, files := [], [];
    }

    /** getField: the value when it is set, else null. */
    function GetField(name: string): (v: Value)
      reads this
      ensures IsSet(fields, name) ==> Some(v) == Lookup(fields, name)
      ensures !IsSet(fields, name) ==> v == Null
    {
      if IsSet(fields, name) then Get(fields, name) else Null
    }

    /** hasField: a field is there and not null. */
    function HasField(name: string): (b: bool)
      reads this
      ensures b <==> Lookup(fields, name).Some? && Lookup(fields, name).value != Null
    {
      IsSet(fields, name)
    }

    /** count: one per file and one per field; zero exactly when there is
        nothing to send. */
    function Count(): (n: nat)
      reads this
      ensures n == |files| + |fields|
      ensures n == 0 <==> files == [] && fields == []
    {
      |files| + |fields|
    }

    /** tell: the built body's position, 0 when none is built. */
    function Tell(position: Stream -> nat): (p: nat)
      reads this
      ensures body.None? ==> p == 0
      ensures body.Some? ==> p == position(body.value)
    {
      if body.Some? then position(body.value) else 0
    }

    /** close: the built body's answer, true when none is built. */
    function Close(closeStream: Stream -> bool): (ok: bool)
      reads this
      ensures body.None? ==> ok
      ensures body.Some? ==> ok == closeStream(body.value)
    {
      if body.Some? then closeStream(body.value) else true
    }

    /** createMultipart: every array-valued field becomes its unencoded
        query string; scalars and the file list are passed as they are. */
    method CreateMultipart(boundary: string) returns (s: Stream)
      requires Valid()
      modifies this
      ensures Valid()
      ensures s == MultipartStream(Flatten(fields, EffectiveAggregator(old(aggregator)), render), files, boundary)
      ensures aggregator == Some(EffectiveAggregator(old(aggregator)))
      ensures body == old(body) && fields == old(fields) && files == old(files) && forceMultipart == old(forceMultipart)
      ensures builtForce == old(builtForce) && builtAggregator == old(builtAggregator) && builtBoundary == old(builtBoundary)
    {
      var agg := GetAggregator();
      var parts := FlattenFields(fields, agg, render);
      s := MultipartStream(parts, files, boundary);
    }

    /** createUrlEncoded: the fields as an RFC 1738 query string. */
    method CreateUrlEncoded() returns (s: Stream)
      requires Valid()
      modifies this
      ensures Valid()
      ensures s == UrlEncodedStream(render(fields, EffectiveAggregator(old(aggregator)), Rfc1738))
      ensures aggregator == Some(EffectiveAggregator(old(aggregator)))
      ensures body == old(body) && fields == old(fields) && files == old(files) && forceMultipart == old(forceMultipart)
      ensures builtForce == old(builtForce) && builtAggregator == old(builtAggregator) && builtBoundary == old(builtBoundary)
    {
      var agg := GetAggregator();
      s := UrlEncodedStream(render(fields, agg, Rfc1738));
    }

    /** getAggregator: installs the PHP-style aggregator on first use. */
    method GetAggregator() returns (a: Aggregator)
      requires Valid()
      modifies this
      ensures Valid()
      ensures a == EffectiveAggregator(old(aggregator)) && aggregator == Some(a)
      ensures body == old(body) && fields == old(fields) && files == old(files) && forceMultipart == old(forceMultipart)
      ensures builtForce == old(builtForce) && builtAggregator == old(builtAggregator) && builtBoundary == old(builtBoundary)
    {
      if aggregator.None? {
        aggregator := Some(PhpAggregator);
      }
      a := aggregator.value;
    }

    /** getBody: the cached body while there is one; otherwise a new body
        built from the current state, which is then cached. `boundary` is
        the one a new multipart body would pick. */
    method GetBody(boundary: string) returns (s: Stream)
      requires Valid()
      modifies this
      ensures Valid()
      ensures body == Some(s)
      ensures fields == old(fields) && files == old(files) && forceMultipart == old(forceMultipart)
      ensures old(body).Some? ==> s == old(body).value && aggregator == old(aggregator)
      ensures old(body).None? ==>
        && s == Build(fields, files, forceMultipart, EffectiveAggregator(old(aggregator)), boundary, render)
        && aggregator == (if s.EmptyStream? then old(aggregator) else Some(EffectiveAggregator(old(aggregator))))
    {
      if body.Some? {
        s := body.value;
      } else if files != [] || forceMultipart {
        s := CreateMultipart(boundary);
        body := Some(s);
        builtForce, builtAggregator, builtBoundary := forceMultipart, aggregator.value, boundary;
      } else if fields != [] {
        s := CreateUrlEncoded();
        body := Some(s);
        builtForce, builtAggregator, builtBoundary := forceMultipart, aggregator.value, boundary;
      } else {
        s := EmptyStream;
        body := Some(s);
        builtForce, builtAggregator, builtBoundary := forceMultipart, EffectiveAggregator(aggregator), boundary;
      }
    }

    /** getSize: the size of the (possibly newly built) body. */
    method GetSize(boundary: string) returns (size: Option<int>)
      requires Valid()
      modifies this
      ensures Valid()
      ensures body.Some? && size == SizeOf(body.value, multipartSize)
      ensures old(body).Some? ==> body == old(body) && aggregator == old(aggregator)
      ensures old(body).None? ==> body == Some(Build(fields, files, forceMultipart, EffectiveAggregator(old(aggregator)), boundary, render))
      ensures fields == old(fields) && files == old(files) && forceMultipart == old(forceMultipart)
    {
      var s := GetBody(boundary);
      size := SizeOf(s, multipartSize);
    }

    /** applyRequestHeaders: Content-Type multipart with the body's boundary
        when there are files or multipart is forced, else form-encoded when
        there are fields, else none; Content-Length when the size is
        non-zero. A body cached before multipart was forced has no boundary,
        and asking it for one is a fatal error. */
    method ApplyRequestHeaders(req: Request, boundary: string) returns (r: Result<(), PostError>)
      requires Valid()
      modifies this, req
      ensures Valid()
      ensures fields == old(fields) && files == old(files) && forceMultipart == old(forceMultipart)
      ensures body.Some? && (old(body).Some? ==> body == old(body))
      ensures old(body).None? ==> body == Some(Build(fields, files, forceMultipart, EffectiveAggregator(old(aggregator)), boundary, render))
      ensures r.Err? <==> (files != [] || forceMultipart) && !body.value.MultipartStream?
      ensures r.Err? ==> r.error == UndefinedMethod("getBoundary") && req.headers == old(req.headers)
      ensures r.Ok? ==> req.headers == ContentLength(ContentType(old(req.headers), files, forceMultipart, fields, body.value),
                                                     SizeOf(body.value, multipartSize))
    {
      var headers := req.headers;
      if files != [] || forceMultipart {
        var s := GetBody(boundary);
        if !s.MultipartStream? {
          return Err(UndefinedMethod("getBoundary"));
        }
        headers := SetHeader(headers, "Content-Type", MultipartPrefix + s.boundary);
      } else if fields != [] {
        headers := SetHeader(headers, "Content-Type", FormContentType);
      }
      var size := GetSize(boundary);
      if size.Some? && size.value != 0 {
        headers := SetHeader(headers, "Content-Length", IntToString(size.value));
      }
      req.headers := headers;
      r := Ok(());
    }
  }

  /** The Content-Type rule of applyRequestHeaders, given the built body. */
  function ContentType(headers: Assoc<string>, files: seq<PostFile>, force: bool, fields: Assoc<Value>, s: Stream): Assoc<string> {
    if files != [] || force then SetHeader(headers, "Content-Type", MultipartPrefix + (if s.MultipartStream? then s.boundary else ""))
    else if fields != [] then SetHeader(headers, "Content-Type", FormContentType)
    else headers
  }

  /** The Content-Length rule: set only for a known, non-zero size. */
  function ContentLength(headers: Assoc<string>, size: Option<int>): Assoc<string> {
    if size.Some? && size.value != 0 then SetHeader(headers, "Content-Length", IntToString(size.value)) else headers
  }

  /** With nothing to send the request's headers are left exactly as they
      were. */
  lemma HeadersForNothing(headers: Assoc<string>, agg: Aggregator, boundary: string,
                          render: (Assoc<Value>, Aggregator, Encoding) -> string, multipartSize: Stream -> Option<int>)
    ensures var s := Build([], [], false, agg, boundary, render);
      ContentLength(ContentType(headers, [], false, [], s), SizeOf(s, multipartSize)) == headers
  {
  }

  /** With fields only, the content type is form-encoded and the length is
      the encoded text's, unless that text is empty; no other header
      changes. Names are compared without regard to case. */
  lemma HeadersForFields(headers: Assoc<string>, fields: Assoc<Value>, agg: Aggregator, boundary: string,
                         render: (Assoc<Value>, Aggregator, Encoding) -> string, multipartSize: Stream -> Option<int>)
    requires fields != []
    ensures var s := Build(fields, [], false, agg, boundary, render);
      var h := ContentLength(ContentType(headers, [], false, fields, s), SizeOf(s, multipartSize));
      var text := render(fields, agg, Rfc1738);
      && FindHeader(h, "Content-Type") == Some(FormContentType)
      && FindHeader(h, "Content-Length") == (if text == "" then FindHeader(headers, "Content-Length") else Some(IntToString(|text|)))
      && (forall n :: !SameName(n, "Content-Type") && !SameName(n, "Content-Length") ==> FindHeader(h, n) == FindHeader(headers, n))
  {
    var text := render(fields, agg, Rfc1738);
    var typed := SetHeader(headers, "Content-Type", FormContentType);
    assert ContentType(headers, [], false, fields, UrlEncodedStream(text)) == typed;
    ContentNamesDiffer();
    SetHeaderMaybePair(headers, "Content-Type", FormContentType, "Content-Length", IntToString(|text|), text != "");
  }

  lemma ContentNamesDiffer()
    ensures !SameName("Content-Type", "Content-Length") && !SameName("Content-Length", "Content-Type")
  {
  }

  /** Forcing multipart after a form body was built keeps that body, so the
      next applyRequestHeaders asks a form stream for a boundary and fails. */
  method ForceAfterBuildFails(render: (Assoc<Value>, Aggregator, Encoding) -> string,
                              multipartSize: Stream -> Option<int>, boundary: string)
    returns (r: Result<(), PostError>)
    ensures r == Err(UndefinedMethod("getBoundary"))
  {
    var post := new PostBody(render, multipartSize);
    post.SetField("a", Str("b"));
    var size := post.GetSize(boundary);
    assert post.body == Some(UrlEncodedStream(render([("a", Str("b"))], PhpAggregator, Rfc1738)));
    post.ForceMultipartUpload(true);
    var req := new Request([]);
    r := post.ApplyRequestHeaders(req, boundary);
  }
}
