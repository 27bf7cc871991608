# Guzzle request-processing core, modelled in Dafny

This project models five pieces of the Guzzle HTTP client:

- **OAuth 1.0 signer** (`Oauth`, `oauth.dfy`). It covers the plugin's configuration and defaults, and the protocol parameters (required and optional). It also covers the parameters to sign: protocol, then query, then POST fields, with the earlier source winning. Then come their normalisation (sorted; nulls dropped; booleans become `"true"`/`"false"`; recursive), the string to sign, the signing key and the signature. Last is the `Authorization` header, or the query parameters, added in `request.before_send`. The plugin listens at priority `BeforeSendPriority` (-1000).
- **POST body aggregate** (`Post`, `post.dfy`). It holds fields, files, a force-multipart flag and an aggregator. The body stream is built lazily and cached until a field or file changes. The model covers:
  - the choice between multipart, form-encoded and empty bodies;
  - flattening array fields for multipart parts;
  - the `Content-Type` and `Content-Length` headers it applies to a request.
- **Redirect follower** (`Redirect`, `redirect.dfy`). It covers the loop after a request is sent. It also covers:
  - how a redirect request is made: clone, disable flag, switch to GET, target URL, body rewind;
  - the limit of five redirects;
  - the two exceptions;
  - intercepting the final response.
- **PHP stream-wrapper adapter** (`StreamAdapter`, `stream.dfy`), without its I/O. It covers:
  - the `Connection: close` rule and the before-send short-circuit;
  - the `http` context options, with the `proxy`, `timeout`, `verify` and `cert` translators;
  - the gzip URL prefix and the "URL contains `http`" check;
  - the error message when no resource is made;
  - the chunked drain into the destination stream and the rewind after it;
  - parsing the status line and header lines.
- **Array service-description builder** (`Description`, `description.dfy`). It covers:
  - naming each operation;
  - resolving `extends` against operations built earlier: missing operations, configuration merging, parameter merging;
  - the default command class, and storing each operation under its name.

`php.dfy` (`Php`) holds the PHP vocabulary the others share. PHP values, and PHP arrays as ordered string-keyed maps, come with these operations:

- `$a[$k] = $v`, `unset`, `+` and `array_merge`;
- `ksort`, `isset`, `empty` and truthiness;
- `explode`, `trim` and `strtoupper`;
- `setHeader` on a header list, with names compared without regard to ASCII case;
- `urlencode` and `rawurlencode`, with their decoders.

Each PHP array operation is stated by its effect on key lookup.

`getSaveToBody` drains the response in chunks of 8096 bytes (src/Adapter/StreamAdapter.php:81, `StreamAdapter.ChunkSize`). A redirect chain re-requests the first `Location` rather than following it hop by hop (see Findings).

## Model

| member | source | states |
|---|---|---|
| `Oauth.Configure` | src/Guzzle/Plugin/Oauth/OauthPlugin.php:44-58 | every option is the user's value when the user gave one, else the default; no key repeats |
| `Oauth.ConfigureHasRequired` | src/Guzzle/Plugin/Oauth/OauthPlugin.php:55-58 | every required option is present whatever the user supplies, so building the configuration cannot fail |
| `Oauth.GetOauthParams` | src/Guzzle/Plugin/Oauth/OauthPlugin.php:166-191 | the loop yields the required parameters followed by each optional one whose option is set |
| `Oauth.OauthParamsRequired` | src/Guzzle/Plugin/Oauth/OauthPlugin.php:168-173 | consumer key, nonce, signature method and timestamp are always present with their values; no key repeats |
| `Oauth.OauthParamsOptional` | src/Guzzle/Plugin/Oauth/OauthPlugin.php:177-188 | `oauth_callback`, `oauth_token`, `oauth_verifier` and `oauth_version` are present exactly when their option is set (non-null), with its value |
| `Oauth.OauthParamsKeys` | src/Guzzle/Plugin/Oauth/OauthPlugin.php:166-191 | no key other than the eight protocol parameters appears |
| `Oauth.ParamsToSignPrecedence` | src/Guzzle/Plugin/Oauth/OauthPlugin.php:205-237 | the result is strictly sorted by key; a key gets the protocol value, else the query value, else the POST field (only if POST signing is enabled and the body is a POST aggregate) |
| `Oauth.PrepareSeq` | src/Guzzle/Plugin/Oauth/OauthPlugin.php:262-274 | the rewritten entries hold no null or boolean, introduce no key, and stay sorted |
| `Oauth.PreparedContents` | src/Guzzle/Plugin/Oauth/OauthPlugin.php:259-277 | the prepared array is strictly sorted and has no null or boolean; each key maps to its original value converted (null removed, boolean to `"true"`/`"false"`, array prepared recursively) |
| `Oauth.PrepareParameters` | src/Guzzle/Plugin/Oauth/OauthPlugin.php:259-277 | the in-place loop (with its recursive calls) computes the prepared array |
| `Oauth.PrepareSorted` | src/Guzzle/Plugin/Oauth/OauthPlugin.php:262-274 | the loop over the key-sorted entries leaves exactly the array the reference preparation of that order describes |
| `Oauth.PrepareEntry` | src/Guzzle/Plugin/Oauth/OauthPlugin.php:263-273 | one entry: a null is removed, a nested array is replaced by its prepared copy, a boolean by `true`/`false`, anything else kept |
| `Oauth.StringToSignParts` | src/Guzzle/Plugin/Oauth/OauthPlugin.php:142-157 | the string to sign has exactly two `&`; splitting at them gives the upper-cased method, the encoded base URL and the encoded parameter string; the middle part decodes back to the URL |
| `Oauth.SigningKeyParts` | src/Guzzle/Plugin/Oauth/OauthPlugin.php:128 | the key splits at its one `&` into the form-encoded consumer secret and token secret, each of which decodes back |
| `Oauth.SignatureDeterministic` | src/Guzzle/Plugin/Oauth/OauthPlugin.php:125-131 | with the nonce and timestamp fixed, two requests with the same method, base URL, query and body get the same signature, whatever their headers or fragment |
| `Oauth.AuthorizationEntries` | src/Guzzle/Plugin/Oauth/OauthPlugin.php:106-111 | the header's entries are exactly the truthy parameters, each once, in strictly ascending key order |
| `Oauth.AppendEntries` | src/Guzzle/Plugin/Oauth/OauthPlugin.php:107-111 | the loop appends `key="value", ` for each truthy entry, in order |
| `Oauth.BuildAuthorizationHeader` | src/Guzzle/Plugin/Oauth/OauthPlugin.php:103-114 | the header is `OAuth ` followed by the rendered entries joined by `, `; with no truthy entry, cutting the last two characters leaves `OAut` |
| `Oauth.SetAll` | src/Guzzle/Plugin/Oauth/OauthPlugin.php:82-84 | setting each parameter on the query in turn is `array_merge` of the query and the parameters |
| `Oauth.OnRequestBeforeSend` | src/Guzzle/Plugin/Oauth/OauthPlugin.php:66-94 | returns the protocol parameters plus the signature of the unmodified request. In header mode only `Authorization` changes, replacing any header of that name in any case; in query mode only the query changes. Any other mode raises `Invalid consumer method "…"` and leaves the request as it was. Method and body never change |
| `Oauth.PlaceParams` | src/Guzzle/Plugin/Oauth/OauthPlugin.php:74-91 | header mode sets `Authorization` to the built header through `setHeader`, so it replaces the header under any spelling and nothing else changes; query mode merges every parameter into the query and touches nothing else; any other mode yields `Invalid consumer method "…"` with the request unchanged |
| `Post.FlattenEntries` | src/Message/Post/PostBody.php:250-255 | flattening keeps every field in its place under its name, passes non-arrays through, replaces each array by its unencoded query string, and leaves no array |
| `Post.FlattenKeepsKeys` | src/Message/Post/PostBody.php:250-257 | the multipart parts have exactly the field names, and distinct names stay distinct |
| `Post.FlattenFields` | src/Message/Post/PostBody.php:245-255 | the by-reference loop rewrites exactly the array-valued fields |
| `Post.BuildKinds` | src/Message/Post/PostBody.php:211-222 | the body is multipart exactly when there are files or multipart is forced, form-encoded exactly when there are only fields, and empty otherwise; a multipart body carries the files, the boundary and the field names |
| `Post.PostBody.ForceMultipartUpload` | src/Message/Post/PostBody.php:52-57 | only the flag changes; a body already built is kept |
| `Post.PostBody.SetAggregator` | src/Message/Post/PostBody.php:64-67 | only the aggregator changes; a body already built is kept |
| `Post.PostBody.SetField` | src/Message/Post/PostBody.php:69-75 | the field is assigned; the cached body is dropped; nothing else changes |
| `Post.PostBody.ReplaceFields` | src/Message/Post/PostBody.php:77-83 | the fields are replaced; the cached body is dropped; nothing else changes |
| `Post.PostBody.GetField` | src/Message/Post/PostBody.php:85-88 | the field's value when it is set, null otherwise |
| `Post.PostBody.RemoveField` | src/Message/Post/PostBody.php:90-96 | the field is unset; the cached body is dropped; nothing else changes |
| `Post.PostBody.HasField` | src/Message/Post/PostBody.php:103-106 | true exactly when the field is present and not null |
| `Post.PostBody.AddFile` | src/Message/Post/PostBody.php:113-119 | the file is appended; the cached body is dropped; nothing else changes |
| `Post.PostBody.ClearFiles` | src/Message/Post/PostBody.php:121-127 | no file is left; the cached body is dropped; nothing else changes |
| `Post.PostBody.Count` | src/Message/Post/PostBody.php:134-137 | the number of files plus fields, zero exactly when both are empty |
| `Post.PostBody.Close` | src/Message/Post/PostBody.php:149-152 | true with no body built, otherwise the built body's answer |
| `Post.PostBody.Detach` | src/Message/Post/PostBody.php:154-160 | body, fields and files are cleared; flag and aggregator are kept |
| `Post.PostBody.Tell` | src/Message/Post/PostBody.php:167-170 | 0 with no body built, otherwise the built body's position |
| `Post.PostBody.Mutate` | src/Message/Post/PostBody.php:277-280 | only the cached body is dropped |
| `Post.PostBody.GetAggregator` | src/Message/Post/PostBody.php:229-236 | the configured aggregator, installing the PHP-style one on first use |
| `Post.PostBody.CreateMultipart` | src/Message/Post/PostBody.php:243-258 | a multipart stream of the flattened fields and the files, using the effective aggregator |
| `Post.PostBody.CreateUrlEncoded` | src/Message/Post/PostBody.php:265-272 | a stream of the fields as an RFC 1738 query string, using the effective aggregator |
| `Post.PostBody.GetBody` | src/Message/Post/PostBody.php:211-222 | the cached body when there is one; otherwise the body built from the current state, which is then cached; the cache invariant is kept |
| `Post.PostBody.GetSize` | src/Message/Post/PostBody.php:187-190 | the size of the (possibly newly built) body: 0 when empty, the text length when form-encoded, the supplied size when multipart |
| `Post.PostBody.ApplyRequestHeaders` | src/Message/Post/PostBody.php:32-43 | sets (through `setHeader`, any spelling replaced) the multipart content type with the body's boundary, or the form type, or none, then `Content-Length` when the size is non-zero. It fails exactly when multipart is wanted but the cached body is not multipart |
| `Post.HeadersForNothing` | src/Message/Post/PostBody.php:34-42 | with no fields, no files and no forced multipart, the headers stay exactly as they were |
| `Post.HeadersForFields` | src/Message/Post/PostBody.php:36-42 | with fields only, a lookup of `Content-Type` in any case finds the form type; `Content-Length` finds the encoded text's length, or, when that text is empty, what the request already had; every other header finds what it found before |
| `Post.ForceAfterBuildFails` | src/Message/Post/PostBody.php:34-35 | forcing multipart after a form body was built keeps that body, and applying the headers then asks it for a boundary and fails |
| `Redirect.Request.Clone` | src/Guzzle/Http/RedirectPlugin.php:76 | a new request with the same fields and the shared body object |
| `Redirect.Target` | src/Guzzle/Http/RedirectPlugin.php:97-106 | an absolute Location is used as it is; a relative one is combined with the request URL stripped of its query |
| `Redirect.SetRedirectUrl` | src/Guzzle/Http/RedirectPlugin.php:95-109 | only the URL changes, to the target of the Location |
| `Redirect.RewindEntityBody` | src/Guzzle/Http/RedirectPlugin.php:117-132 | fails exactly when the body was partly read and cannot rewind; otherwise the body ends at position 0 |
| `Redirect.Downgrade` | src/Guzzle/Http/RedirectPlugin.php:78-81 | an entity-enclosing, non-strict request answered with status ≤ 302 becomes a GET without a body; otherwise nothing changes |
| `Redirect.DisabledClone` | src/Guzzle/Http/RedirectPlugin.php:76-77 | the clone equals the request except that the disable flag is true |
| `Redirect.Finish` | src/Guzzle/Http/RedirectPlugin.php:83-84 | the clone gets the target URL and its body is rewound, failing exactly when the rewind fails |
| `Redirect.CreateRedirectRequest` | src/Guzzle/Http/RedirectPlugin.php:70-87 | as written: the fresh clone carries the original method and body, the disable flag and the new URL, while the switch to GET lands on the original request; fails with the rewind message exactly when the rewind fails |
| `Redirect.Downgraded` | src/Guzzle/Http/RedirectPlugin.php:78-81 | only the method and body can change, and they become GET and none exactly when the switch applies |
| `Redirect.DowngradedIdempotent` | src/Guzzle/Http/RedirectPlugin.php:78-81 | switching to GET twice is switching once |
| `Redirect.StopAtLast` | src/Guzzle/Http/RedirectPlugin.php:45-55 | a loop that ends at a non-redirect returns, or intercepts that response exactly when it is not the original one |
| `Redirect.StopTooMany` | src/Guzzle/Http/RedirectPlugin.php:45-48 | after five hops a sixth redirect raises `Redirected too many times: 6` |
| `Redirect.StopRewind` | src/Guzzle/Http/RedirectPlugin.php:84 | a rewind that fails while fewer than five hops were sent ends the loop with the could-not-rewind error, keeping the hops already sent |
| `Redirect.BodyPositionSnoc` | src/Guzzle/Http/RedirectPlugin.php:50 | a later send does not change where the shared body stood when an earlier hop was prepared |
| `Redirect.RewoundSnoc` | src/Guzzle/Http/RedirectPlugin.php:117-132 | a hop whose body could be rewound extends a run of hops that all could |
| `Redirect.Send` | src/Guzzle/Http/RedirectPlugin.php:50 | the client's answer to the n-th send, with the body it carried left where the client stopped reading |
| `Redirect.HopFromOriginal` | src/Guzzle/Http/RedirectPlugin.php:49 | each pass derives the hop from the original request and the original response; it fails exactly when the body that hop carries cannot rewind from where it stands, and otherwise leaves that body at 0 |
| `Redirect.OnRequestSent` | src/Guzzle/Http/RedirectPlugin.php:35-56 | as written: a disabled request is left alone. Otherwise the loop stops per `Stopped`: at most five hops, each caused by a redirect, each sent with a rewindable body. It raises could-not-rewind exactly when the next hop's body, where the previous send left it, cannot rewind. Every hop after the first repeats the original Location, the original request is switched to GET, and the shared body ends where the last send carrying it left it |
| `Redirect.CreateChainedRequest` | src/Guzzle/Http/RedirectPlugin.php:70-87 | as intended: the clone is switched to GET and redirected, the request it was cloned from is untouched |
| `Redirect.OnRequestSentChained` | src/Guzzle/Http/RedirectPlugin.php:35-56 | as intended: the same stopping rule and rewind rule, each hop derived from the previous hop and the response to it, and the original request unchanged |
| `Redirect.RewindAfterSend` | src/Guzzle/Http/RedirectPlugin.php:45-50 | a strict POST with a non-seekable body, redirected twice, where the first send reads the body: exactly one hop is sent and the loop ends with the could-not-rewind error |
| `Redirect.RepeatedLocation` | src/Guzzle/Http/RedirectPlugin.php:49 | origin → a → b → 200: as written, the second hop goes to `http://a/` again |
| `Redirect.FollowedLocation` | src/Guzzle/Http/RedirectPlugin.php:49-50 | the same chain as intended: exactly two hops, to `http://a/` and then `http://b/` |
| `Redirect.DowngradeOnOriginal` | src/Guzzle/Http/RedirectPlugin.php:78-81 | a POST answered 302 is redirected as a POST with its body, while the original becomes a bodiless GET |
| `Redirect.DowngradeOnClone` | src/Guzzle/Http/RedirectPlugin.php:78-81 | the same POST as intended: the redirect is a bodiless GET and the original keeps its method and body |
| `StreamAdapter.Destination.Write` | src/Adapter/StreamAdapter.php:81 | the data overwrites from the current position, which moves past it |
| `StreamAdapter.Destination.Rewind` | src/Adapter/StreamAdapter.php:85 | the position returns to 0, content unchanged |
| `StreamAdapter.OverwriteShape` | src/Adapter/StreamAdapter.php:81 | bytes before the position are kept, the data sits at the position, and bytes after it are kept when the data ends inside the old content |
| `StreamAdapter.OverwriteConcat` | src/Adapter/StreamAdapter.php:80-82 | two consecutive writes are one write of both |
| `StreamAdapter.ConnectionRule` | src/Adapter/StreamAdapter.php:34-38 | an HTTP/1.1 request without a Connection header (any case) gains one reading `close`; every other request, and one that already has a Connection header, keeps its headers exactly; existing headers are never changed |
| `StreamAdapter.ApplyConnectionRule` | src/Adapter/StreamAdapter.php:34-38 | the request's headers become those of the rule |
| `StreamAdapter.Send` | src/Adapter/StreamAdapter.php:28-47 | the rule is applied first. A response from a before-send listener is returned untouched and the destination is left alone. Otherwise the response is created from the stream (see `CreateResponse`); a creation error is returned without calling the complete listeners, and otherwise the response a complete listener supplies, if any, replaces the created one and is what `send` returns |
| `StreamAdapter.CreateResponse` | src/Adapter/StreamAdapter.php:52-63 | on a stream error, that error with nothing recorded. Otherwise the response parsed from the header lines, with the live stream as body when `stream` is set, else the destination holding the drained bytes at position 0 |
| `StreamAdapter.RecordResponse` | src/Adapter/StreamAdapter.php:57-62 | the transaction's response becomes the one parsed from the header lines over the settled body (live stream, or the drained destination) |
| `StreamAdapter.SettleBody` | src/Adapter/StreamAdapter.php:57-59 | the live stream when `stream` is truthy, otherwise the drained destination |
| `StreamAdapter.Drain` | src/Adapter/StreamAdapter.php:80-87 | the chunks concatenate to the source, each 1..8096 bytes, all but the last full (the model's chunking, see "## Left out"); the destination gets the source written at its position and is rewound |
| `StreamAdapter.DrainIntoEmpty` | src/Adapter/StreamAdapter.php:77-85 | a fresh temporary stream ends holding exactly the response bytes |
| `StreamAdapter.HeaderTextJoin` | src/Adapter/StreamAdapter.php:163-166 | the header text is the lines `Name: v1, v2` joined by CRLF, plus a final CRLF |
| `StreamAdapter.HeaderBlockIsJoin` | src/Adapter/StreamAdapter.php:163-171 | trimming removes only the final CRLF when the block neither starts nor ends with whitespace |
| `StreamAdapter.BuildHeaderBlock` | src/Adapter/StreamAdapter.php:163-171 | the loop builds the trimmed header text |
| `StreamAdapter.VisitProxy` | src/Adapter/StreamAdapter.php:204-214 | a non-array is the proxy; an array gives the entry for the request's scheme when set, and otherwise leaves the options alone; no other option changes |
| `StreamAdapter.VisitVerify` | src/Adapter/StreamAdapter.php:221-235 | true turns peer verification on; an existing path also sets the CA file and allows self-signed; a missing path raises the CA-file error; false turns verification off; anything else changes nothing |
| `StreamAdapter.VisitCert` | src/Adapter/StreamAdapter.php:237-249 | an array gives passphrase `[1]` and path `[0]`; a missing certificate raises `SSL certificate not found: …`; otherwise the path becomes `local_cert`; nothing else changes |
| `StreamAdapter.Visit` | src/Adapter/StreamAdapter.php:178-183 | a key without a translator changes nothing |
| `StreamAdapter.Translatable` | src/Adapter/StreamAdapter.php:178-183 | the kept entries all have a translator |
| `StreamAdapter.OnlyTranslatedKeysMatter` | src/Adapter/StreamAdapter.php:178-183 | translating the whole configuration is translating only its entries with a translator |
| `StreamAdapter.TranslateFrame` | src/Adapter/StreamAdapter.php:169-183 | the translators never touch method, header, protocol version, `ignore_errors`, `follow_location` or content |
| `StreamAdapter.TranslateOptions` | src/Adapter/StreamAdapter.php:178-183 | the loop visits entries in order and stops at the first error |
| `StreamAdapter.TranslateStops` | src/Adapter/StreamAdapter.php:178-183 | an error in a prefix is the error of the whole translation |
| `StreamAdapter.ContextOptions` | src/Adapter/StreamAdapter.php:168-183 | successful options carry the request's method, trimmed header block, protocol version and body, with `ignore_errors` true and `follow_location` 0 |
| `StreamAdapter.StreamUrl` | src/Adapter/StreamAdapter.php:189-193 | the URL gets the `compress.zlib://` prefix exactly when Accept-Encoding contains `gzip` |
| `StreamAdapter.StreamUrlKeepsValidity` | src/Adapter/StreamAdapter.php:189-199 | the gzip prefix never changes whether the URL contains `http` |
| `StreamAdapter.GzipUrl` | src/Adapter/StreamAdapter.php:189-193 | computes the URL opened |
| `StreamAdapter.FormatResourceHead` | src/Adapter/StreamAdapter.php:135-138 | builds the lead, the URL and the proxy part when a proxy is set |
| `StreamAdapter.FormatResourceError` | src/Adapter/StreamAdapter.php:135-142 | the loop appends `[key] value ` per entry of the last error, then trims |
| `StreamAdapter.ResourceErrorLead` | src/Adapter/StreamAdapter.php:135-142 | the message always starts with `Error creating resource. [url]` |
| `StreamAdapter.ResourceErrorUrl` | src/Adapter/StreamAdapter.php:135-142 | the URL follows the lead |
| `StreamAdapter.ResourceErrorProxy` | src/Adapter/StreamAdapter.php:136-138 | a set proxy appears as `[proxy] …` right after the URL |
| `StreamAdapter.StreamForOpens` | src/Adapter/StreamAdapter.php:156-201 | a stream opens exactly when the options build, the context is made, the request URL contains `http`, and the wrapper opens the (possibly prefixed) URL; it is then what the wrapper opened |
| `StreamAdapter.StreamForFails` | src/Adapter/StreamAdapter.php:185-201 | every failure after the options are built is a request error carrying the resource message |
| `StreamAdapter.CreateStream` | src/Adapter/StreamAdapter.php:156-202 | builds the header block and base options, translates the configuration, then opens the stream |
| `StreamAdapter.OpenStream` | src/Adapter/StreamAdapter.php:185-201 | creates the context and opens the URL, with the resource message on each failure |
| `StreamAdapter.LastThree` | src/Adapter/StreamAdapter.php:93 | the last three characters of the version token, or all of it when shorter |
| `StreamAdapter.StatusLineParts` | src/Adapter/StreamAdapter.php:92-96 | `version code reason` gives the code, the protocol version and the reason, which may contain spaces; without a reason, no reason phrase; the header map comes from the remaining lines |
| `StreamAdapter.HeaderSplit` | src/Adapter/StreamAdapter.php:101-102 | `explode(':', line, 2)` gives the name and, exactly when there is a colon, the value |
| `StreamAdapter.HeaderLineSplit` | src/Adapter/StreamAdapter.php:101-102 | a line splits at its first colon with the value untrimmed; a line without a colon is a name with the empty value |
| `StreamAdapter.ParsedHeadersKeys` | src/Adapter/StreamAdapter.php:99-103 | a name is in the header map exactly when some line has it |
| `StreamAdapter.ParsedHeadersLast` | src/Adapter/StreamAdapter.php:99-103 | the value kept for a name is that of the last line with that name |
| `StreamAdapter.ParseHeaders` | src/Adapter/StreamAdapter.php:99-103 | the loop builds the header map |
| `StreamAdapter.CreateResponseObject` | src/Adapter/StreamAdapter.php:90-105 | the factory receives the status code, the header map, the body and the options |
| `Description.ResolveExtends` | src/Guzzle/Service/Description/ArrayDescriptionBuilder.php:24-33 | the extends loop accumulates inherited parameters and the merged configuration, and stops at the first missing operation |
| `Description.ResolveStops` | src/Guzzle/Service/Description/ArrayDescriptionBuilder.php:26-29 | a missing operation ends the loop with its error |
| `Description.ResolveFails` | src/Guzzle/Service/Description/ArrayDescriptionBuilder.php:26-29 | resolving fails exactly when some extended operation was not built earlier |
| `Description.ResolveFailure` | src/Guzzle/Service/Description/ArrayDescriptionBuilder.php:27-28 | the error is `<name> extends missing operation <first missing>` |
| `Description.ResolveConfig` | src/Guzzle/Service/Description/ArrayDescriptionBuilder.php:30-32 | the merged configuration keeps the operation's own keys, takes every other key from the first extended operation that has it, and repeats no key |
| `Description.ResolveParameters` | src/Guzzle/Service/Description/ArrayDescriptionBuilder.php:30-31 | each inherited parameter is that of the last extended operation having it |
| `Description.NamedFrame` | src/Guzzle/Service/Description/ArrayDescriptionBuilder.php:21 | `name` is the configured name, else the key; no other key, nor extends, nor parameters, changes |
| `Description.MergedKeys` | src/Guzzle/Service/Description/ArrayDescriptionBuilder.php:21-35 | before the class is settled, each key apart from the name (and the parameters when it extends others) is the operation's own, else the first extended operation's |
| `Description.MergedParameters` | src/Guzzle/Service/Description/ArrayDescriptionBuilder.php:24-34 | an extending operation's parameters are an array whose entries are its own non-empty parameters, else the last extended operation's |
| `Description.MergedKeyed` | src/Guzzle/Service/Description/ArrayDescriptionBuilder.php:21-35 | naming and merging repeat no key |
| `Description.WithClassFrame` | src/Guzzle/Service/Description/ArrayDescriptionBuilder.php:37 | the class is the set value, else the default; no other key changes |
| `Description.CompileOperation` | src/Guzzle/Service/Description/ArrayDescriptionBuilder.php:21-37 | one pass of the outer loop produces the operation's final configuration or the missing-operation error |
| `Description.CompileName` | src/Guzzle/Service/Description/ArrayDescriptionBuilder.php:21 | a built operation's `name` is its name |
| `Description.CompileKeys` | src/Guzzle/Service/Description/ArrayDescriptionBuilder.php:21-37 | every key other than name, class (and parameters when it extends others) is the operation's own, else the first extended operation's |
| `Description.CompileClass` | src/Guzzle/Service/Description/ArrayDescriptionBuilder.php:32-37 | the class is the own or first-inherited class when non-null, else the default class |
| `Description.CompileParameters` | src/Guzzle/Service/Description/ArrayDescriptionBuilder.php:34 | an extending operation's parameters are its own non-empty ones overriding the last inherited ones |
| `Description.CompileFails` | src/Guzzle/Service/Description/ArrayDescriptionBuilder.php:26-29 | an operation fails exactly when one it extends was not built before it, with the message naming the first one missing |
| `Description.CompileKeyed` | src/Guzzle/Service/Description/ArrayDescriptionBuilder.php:21-37 | a built operation repeats no key, at top level or in its parameters |
| `Description.Build` | src/Guzzle/Service/Description/ArrayDescriptionBuilder.php:15-43 | `build`; a missing or empty `operations` entry gives an empty description |
| `Description.BuiltStops` | src/Guzzle/Service/Description/ArrayDescriptionBuilder.php:28 | a failed operation ends the whole build with its error |
| `Description.BuiltNames` | src/Guzzle/Service/Description/ArrayDescriptionBuilder.php:38 | operations are stored once per name, and a name is stored exactly when some entry has it |
| `Description.BuiltRefersBack` | src/Guzzle/Service/Description/ArrayDescriptionBuilder.php:20-39 | the build succeeds exactly when every operation extends only operations defined by earlier entries |
| `Description.BuiltLast` | src/Guzzle/Service/Description/ArrayDescriptionBuilder.php:38 | the operation stored under a name is the one built from the last entry with that name, against the operations built before it |
| `Description.BuiltRegistry` | src/Guzzle/Service/Description/ArrayDescriptionBuilder.php:20-39 | keyed configurations build keyed operations, one per name |
| `Php.Merge` | src/Guzzle/Service/Description/ArrayDescriptionBuilder.php:31-32 | `array_merge`: a key takes the second array's value when present there, else the first's |
| `Php.Union` | src/Guzzle/Plugin/Oauth/OauthPlugin.php:210-214 | `+`: a key takes the left value when present there, else the right; the left array is a prefix of the result |
| `Php.KSort` | src/Guzzle/Plugin/Oauth/OauthPlugin.php:217 | `ksort`: sorted, same length, same entries and keys, same lookups |
| `Php.PutAllLookup` | src/Adapter/StreamAdapter.php:100-103 | assigning pairs in order leaves for each key the value of the last pair with it |
| `Php.RawUrlEncodeRoundTrip` | src/Guzzle/Plugin/Oauth/OauthPlugin.php:155-156 | `rawurldecode` inverts `rawurlencode` on byte strings |
| `Php.UrlEncodeRoundTrip` | src/Guzzle/Plugin/Oauth/OauthPlugin.php:109 | `urldecode` inverts `urlencode` on byte strings |
| `Php.SetHeaderFinds` | src/Guzzle/Plugin/Oauth/OauthPlugin.php:76-79 | after `setHeader`, a lookup of the name in any case finds the new value, no other header of that name is left, and every other name finds what it found before |
| `Php.WithoutHeaderFinds` | src/Message/Post/PostBody.php:35-41 | removing a header by name leaves no header of that name in any case and changes no lookup of another name |
| `Php.SetHeaderMaybePair` | src/Message/Post/PostBody.php:34-42 | one header set, then optionally a second of another name: both are found with their values and every other name is unchanged |
| `Php.ExplodeJoin` | src/Adapter/StreamAdapter.php:92 | exploding a join of separator-free pieces gives the pieces back |

## Left out

- Nonce (`generateNonce`), timestamp (`getTimestamp`), the signature callback (HMAC-SHA1 by default), `base64_encode` and the string form of a query (`QueryString`): these are parameters, being randomness, a clock or cryptography.
- The OAuth plugin's `switch` compares loosely in PHP. The model compares the configured method with `header` and `query` as strings.
- `Oauth.ParamsToSignPrecedence`: requires the query and POST fields to have distinct keys. PHP arrays always do.
- `Oauth.StringToSignParts`: requires the HTTP method to contain no `&`. The URL is the request URL without query and fragment; `Url` parsing is not part of this model.
- `Php.SetHeader`: the header class is not part of this model. The new header is appended after every header of that name, in any case, is removed; only lookups are promised, not where the header stands in the list. A header holds one value here.
- PHP strings are byte strings. A `char` stands for one byte, and `rawurlencode`/`urlencode` escape a character by its low eight bits. The round-trip lemmas require every character to be below 256.
- `StreamAdapter.ConnectionRule`: the protocol version is compared with `"1.1"` as a string. PHP's `==` compares numeric strings as numbers, so a version written `1.10` would also match there.
- `getSubscribedEvents` of both plugins and event dispatching are not modelled. The OAuth priority is `Oauth.BeforeSendPriority`, and the redirect plugin's event is the call to `OnRequestSent`.
- `ksort` orders keys here by code unit. PHP compares numeric keys numerically. Integer-like keys count as strings throughout.
- PostBody's `getFields`/`getFiles` are the fields themselves.
  - `__toString`, `getContents`, `eof`, `seek` and `read` only pass through to the built stream's I/O.
  - `isSeekable`, `isReadable`, `isWritable` and `write` return constants.
  - None of these are modelled.
- The multipart layout (`MultipartBody`), the random boundary, `Stream::factory` and the size of a multipart stream come from classes that are not part of this model. They are parameters.
- Redirect URL parsing, formatting and combination (`Url`) are parameters. The client is a parameter too: for the n-th send, a response and the position at which the transfer leaves the body it was given. The body's `ftell`/`rewind` become a position and a seekable flag, with no custom rewind function. The exception's request is not carried.
- `Redirect.OnRequestSent`: the final response is intercepted when it differs, by object identity, from the original response.
- `StreamAdapter` does no real I/O:
  - `stream_context_create`, `fopen`, `file_exists` and `error_get_last` are the `Env` parameter;
  - `fread`/`feof`/`fclose` read a string in chunks. `StreamAdapter.Drain` takes every chunk at the full 8096 bytes except the last; a real `fread` on a network stream may return short reads, and a final empty read, before `feof`, which leave the same bytes in the destination;
  - error reporting levels and the `URL is invalid` warning are not modelled.
- `visit_debug` is not modelled. It only installs a notification callback that writes progress to a stream.
- The before-send and complete events are functions: a before-send listener may supply a response from the request, and a complete listener may replace the created response, given the request and that response. Listener ordering, propagation and errors raised inside listeners are not modelled.
- The headers event (src/Adapter/StreamAdapter.php:108-111) is not modelled: a listener that changes the response object in place there is not captured.
- `StreamAdapter.Send`: the destination is supplied. Opening a `save_to` path (`fopen($saveTo, 'r+')`) or wrapping a `save_to` stream is not modelled. The default temporary stream is required to start empty.
- `StreamAdapter.HeaderBlockIsJoin`, `StreamAdapter.ResourceErrorUrl` and `StreamAdapter.ResourceErrorProxy` are stated for text that does not begin or end with whitespace, where `trim` cannot cut into it.
- `getHeader('Accept-Encoding')` joins the header's values with `, `. A response's `Location` is its first value, found without regard to case.
- The `Operation` class and `Operation::DEFAULT_COMMAND_CLASS` are not part of this model:
  - an operation keeps the configuration it was built from, which `toArray` returns;
  - the default class is a parameter;
  - the builder's unused `$options` argument is dropped.
- `Description.Build`: a missing or non-array `operations` entry is `None`. A non-array `parameters` entry counts as empty. An object is never `empty`, so an extended operation is missing only when no operation has its name.
- `Description` lemmas that require `Keyed` or `Registry`: these state the PHP invariant that an array never holds a key twice.

## Findings

| source | as written | input that shows it | evidently intended | confidence | as-written member | corrected member |
|---|---|---|---|---|---|---|
| src/Guzzle/Http/RedirectPlugin.php:49 | every hop is created from the original request and the original response, so each hop after the first goes to the first `Location` again | GET `http://origin/` → 302 `Location: http://a/` → 302 `Location: http://b/` → 200: the second hop goes to `http://a/`, not `http://b/` | each hop is derived from the previous hop and the response to it | high, not executed | `Redirect.RepeatedLocation` (`Redirect.OnRequestSent`) | `Redirect.FollowedLocation` (`Redirect.OnRequestSentChained`) |
| src/Guzzle/Http/RedirectPlugin.php:78-81 | the switch to GET is applied to the original request, after it was cloned, so the redirect request keeps the POST and its body | POST with a body → 302 `Location: http://a/` → 200: the hop is sent as a POST with the body, and the original request becomes a bodiless GET | the clone becomes a bodiless GET; the original request is left as it was | high, not executed | `Redirect.DowngradeOnOriginal` (`Redirect.CreateRedirectRequest`) | `Redirect.DowngradeOnClone` (`Redirect.CreateChainedRequest`) |
