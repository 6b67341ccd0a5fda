# sMockin proxy and dispatcher, modelled in Dafny

This project models two parts of sMockin, the mock HTTP server.

The first is the **proxy utilities** (`ProxyServerUtils`). They decide whether an
intercepted request is answered by an active mock:
- a mock's path template (`/users/:id`) is rewritten into a regular expression and matched against the inbound path;
- the candidates are narrowed by HTTP method, ignoring case.

The utilities also:
- build the loopback URL of the mock engine;
- copy the intercepted request into an outbound call descriptor;
- strip `Content-Length` before the call;
- turn a response descriptor back into a Netty response.

The second is the **HTTP client dispatcher** (`HttpClientServiceImpl`). It:
- validates an outbound call descriptor;
- sends it to an external URL, or to the REST mock engine on `http://localhost:<port>`;
- maps I/O and engine failures to a 404 descriptor.

Modules:
- `Wrappers`: Option and Result (null and exceptions).
- `Text`: the `String`/`StringUtils` operations used: `equalsIgnoreCase`, `isBlank`, `indexOf`, `replaceOnce`, integer printing and parsing.
- `Utf8`: UTF-8 encoding and a strict decoder, with the round trip.
- `Headers`: the `HashMap` filled by successive `put` calls, and Netty's header list with its case-insensitive `set`.
- `PathTemplate`: path templates, their regex text and what that regex matches, and `doesPathMatch`.
- `Dto`: the request method enum, faults, mock and engine state, the response descriptor and the mutable `HttpClientCallDTO`.
- `ProxyServerUtils` and `HttpClientService`: the two classes.

What the model takes as parameters:
- The network, the clock, URL parsing and the HashMap iteration order.
- HttpClientUtils's send calls, and the name of the intercept header.

The regular expression a template becomes is given meaning by `Compile`. It reads the regex text back into literal and variable tokens; `FullMatch` matches those tokens. `DoesPathMatch` is proved to answer `PathMatches`, the token semantics of the template itself.

## Model

| member | source | states |
|---|---|---|
| PathTemplate.DoesPathMatch | src/main/java/com/smockin/mockserver/proxy/ProxyServerUtils.java:78-96 | the replaceOnce loop builds exactly the regex text of the template's tokens, and the anchored match answers whether the inbound path matches the template (literal text verbatim, each variable one or more characters of the class) |
| PathTemplate.MatchRendered | src/main/java/com/smockin/mockserver/proxy/ProxyServerUtils.java:90-95 | the regex text built from a valid template, read back as a pattern, matches exactly the paths the template matches |
| PathTemplate.CompileRender | src/main/java/com/smockin/mockserver/proxy/ProxyServerUtils.java:90 | reading the regex text back gives the template's tokens with the variable names erased |
| PathTemplate.FullMatchAnchored | src/main/java/com/smockin/mockserver/proxy/ProxyServerUtils.java:95 | `matches("^" + r + "$")` is a match of the whole input against `r` |
| PathTemplate.UnparseTokenize | src/main/java/com/smockin/mockserver/proxy/ProxyServerUtils.java:84-93 | the loop's cut of the template into literal text and `:name` parts loses nothing: joining the parts gives the template back |
| PathTemplate.Tokenize | src/main/java/com/smockin/mockserver/proxy/ProxyServerUtils.java:84-92 | literal parts are non-empty and hold no `:`; variable names hold no `/` |
| PathTemplate.PathVarClassExcludes | src/main/java/com/smockin/mockserver/proxy/ProxyServerUtils.java:31 | the PATH_VAR_REGEX class admits no `/`, `?`, `;`, `%` or `#`, so a variable never spans a segment |
| PathTemplate.NoVariableExactMatch | src/main/java/com/smockin/mockserver/proxy/ProxyServerUtils.java:84-95 | a template in ValidTemplate without `:` matches a path iff the path equals it |
| PathTemplate.OneVariableMatch | src/main/java/com/smockin/mockserver/proxy/ProxyServerUtils.java:84-95 | for a template in ValidTemplate with one variable, a path matches iff it is the prefix, a non-empty run of class characters, then the suffix |
| ProxyServerUtils.FindMockPathMatches | src/main/java/com/smockin/mockserver/proxy/ProxyServerUtils.java:118-126 | a mock is in the result iff it is active and its path matches |
| ProxyServerUtils.FindMockPathMatchesConcat | src/main/java/com/smockin/mockserver/proxy/ProxyServerUtils.java:122-125 | filtering keeps registry order: it distributes over concatenation |
| ProxyServerUtils.FindMockMethodMatch | src/main/java/com/smockin/mockserver/proxy/ProxyServerUtils.java:128-139 | empty iff no candidate's method equals the inbound method ignoring case; otherwise the first such candidate |
| ProxyServerUtils.TwoStageResolution | src/main/java/com/smockin/mockserver/proxy/ProxyServerUtils.java:141-147 | path filter then method filter picks the first active mock that matches on both path and method |
| ProxyServerUtils.FindMockMatch | src/main/java/com/smockin/mockserver/proxy/ProxyServerUtils.java:141-147 | a URI the URL parser rejects fails with MalformedURLException; otherwise the answer is the first full match on the parsed path |
| ProxyServerUtils.ResolveSingle | src/main/java/com/smockin/mockserver/proxy/ProxyServerUtils.java:141-147 | against a one-mock registry, that mock is found iff both its path and its method match |
| ProxyServerUtils.UsersPathMatches | src/main/java/com/smockin/mockserver/proxy/ProxyServerUtils.java:78-96 | `/users/:id` matches `/users/<segment>` iff the segment is a non-empty run of class characters |
| ProxyServerUtils.UsersPathNeedsSegment | src/main/java/com/smockin/mockserver/proxy/ProxyServerUtils.java:78-96 | `/users/:id` does not match `/users` |
| ProxyServerUtils.UsersScenario | src/main/java/com/smockin/mockserver/proxy/ProxyServerUtils.java:118-147 | a GET mock on `/users/:id` answers GET `/users/42`, but not GET `/users` and not POST `/users/42` |
| ProxyServerUtils.MockUrl | src/main/java/com/smockin/mockserver/proxy/ProxyServerUtils.java:98-116 | the mock URL starts with `http://localhost:`, and for a port that is not negative and a path that is empty or starts with `/`, the digits after the host read back as the engine's port |
| ProxyServerUtils.BuildMockUrl | src/main/java/com/smockin/mockserver/proxy/ProxyServerUtils.java:98-116 | the buffer ends up holding host, port, the user context when not blank, the path, then `?query` when there is a query |
| ProxyServerUtils.BuildRequestDTO | src/main/java/com/smockin/mockserver/proxy/ProxyServerUtils.java:56-76 | a fresh descriptor with the destination URL and method, the body only for POST and PUT, and the inbound headers put in order, then the intercept header set to "true" |
| ProxyServerUtils.OutboundHeaders | src/main/java/com/smockin/mockserver/proxy/ProxyServerUtils.java:68-73 | for every inbound list (empty ones and ones holding only the intercept header included), the header map holds exactly the inbound names plus the intercept header, and the intercept header reads "true" even if sent inbound; every other name reads the value of its last inbound entry |
| ProxyServerUtils.RemoveContentLength | src/main/java/com/smockin/mockserver/proxy/ProxyServerUtils.java:174-178 | a name survives iff it is not Content-Length in any case, with its value unchanged |
| ProxyServerUtils.RemoveContentLengthIdempotent | src/main/java/com/smockin/mockserver/proxy/ProxyServerUtils.java:171-179 | sanitizing twice is sanitizing once |
| ProxyServerUtils.RemoveContentLengthAnyCase | src/main/java/com/smockin/mockserver/proxy/ProxyServerUtils.java:177 | no surviving name equals, ignoring case, any spelling of Content-Length |
| ProxyServerUtils.SanitizeRequestHeaders | src/main/java/com/smockin/mockserver/proxy/ProxyServerUtils.java:171-179 | the descriptor's header map is replaced by its sanitized copy; URL, method and body are untouched |
| ProxyServerUtils.CallMock | src/main/java/com/smockin/mockserver/proxy/ProxyServerUtils.java:149-169 | headers are sanitized before sending; a missing method is a NullPointerException; otherwise the call goes out with the descriptor's method |
| ProxyServerUtils.ExcludeInboundMethod | src/main/java/com/smockin/mockserver/proxy/ProxyServerUtils.java:181-186 | a method is excluded iff its lower-case form is `connect`, `options` or `trace` |
| ProxyServerUtils.NoMockMethodExcluded | src/main/java/com/smockin/mockserver/proxy/ProxyServerUtils.java:181-186 | none of GET, POST, PUT, DELETE, PATCH is excluded |
| ProxyServerUtils.ExcludeIgnoresCase | src/main/java/com/smockin/mockserver/proxy/ProxyServerUtils.java:181-186 | exclusion gives the same answer for any casing of the method |
| ProxyServerUtils.FixProtocolWithDummyPrefix | src/main/java/com/smockin/mockserver/proxy/ProxyServerUtils.java:188-196 | the result starts with "http"; a URI already starting with "http" is unchanged, any other gets the dummy-host prefix |
| ProxyServerUtils.FixProtocolIdempotent | src/main/java/com/smockin/mockserver/proxy/ProxyServerUtils.java:188-196 | fixing twice is fixing once, and the original URI is a suffix of the result |
| ProxyServerUtils.WireResponse.Set | src/main/java/com/smockin/mockserver/proxy/ProxyServerUtils.java:43-51 | `headers().set` removes every entry of that name, ignoring case, and appends the new one |
| ProxyServerUtils.BuildResponse | src/main/java/com/smockin/mockserver/proxy/ProxyServerUtils.java:37-54 | a fresh response with the status, the body's UTF-8 bytes as content, and the four forced headers followed by every descriptor header, set in turn |
| ProxyServerUtils.ForcedHeaders | src/main/java/com/smockin/mockserver/proxy/ProxyServerUtils.java:43-51 | Content-Length, Content-Type, Date and Connection each read their forced value unless a descriptor header of that name overrides it; then the last such header's value |
| ProxyServerUtils.ContentLengthIsByteCount | src/main/java/com/smockin/mockserver/proxy/ProxyServerUtils.java:40-43 | the Content-Length text reads back as the number of UTF-8 bytes of the body, and those bytes decode to the body |
| ProxyServerUtils.BuildBadResponse | src/main/java/com/smockin/mockserver/proxy/ProxyServerUtils.java:33-35 | status 400, empty content, and exactly the four forced headers: Content-Length "0", content type `text/html; charset=UTF-8`, the date, Connection close |
| Headers.PutAll | src/main/java/com/smockin/admin/service/HttpClientServiceImpl.java:176-185 | the keys after the puts are the old keys plus every name put |
| Headers.PutAllLastWins | src/main/java/com/smockin/admin/service/HttpClientServiceImpl.java:179-182 | the last entry of a name decides that name's value |
| Headers.PutAllKeeps | src/main/java/com/smockin/mockserver/proxy/ProxyServerUtils.java:68-70 | a name no entry carries keeps its old value |
| Headers.SetHeaderContents | src/main/java/com/smockin/mockserver/proxy/ProxyServerUtils.java:43-46 | after `set`, the new entry is last and the only one of its name (any case); every entry of another name is kept and nothing else is added |
| Headers.GetHeaderFirst | src/main/java/com/smockin/mockserver/proxy/ProxyServerUtils.java:43-51 | `get` is null iff no entry has the name (any case); otherwise it is the value of the first entry that has it |
| Headers.GetAfterSet | src/main/java/com/smockin/mockserver/proxy/ProxyServerUtils.java:43-46 | after `set`, that name (any case) reads the new value and every other name reads what it read before |
| Headers.SetHeaderSingle | src/main/java/com/smockin/mockserver/proxy/ProxyServerUtils.java:43-46 | after `set`, exactly one entry carries the name |
| Headers.GetAfterSetAll | src/main/java/com/smockin/mockserver/proxy/ProxyServerUtils.java:48-51 | after a run of `set` calls, a name reads the value of the last call naming it, or its earlier value when none did |
| Text.ReplaceOnce | src/main/java/com/smockin/mockserver/proxy/ProxyServerUtils.java:90 | the text is returned unchanged when it or the search string is empty, or when the search string does not occur |
| Text.ReplaceOnceAt | src/main/java/com/smockin/mockserver/proxy/ProxyServerUtils.java:90 | replaceOnce rewrites exactly the first occurrence |
| Text.EqualsIgnoreCaseLower | src/main/java/com/smockin/mockserver/proxy/ProxyServerUtils.java:137 | two strings are equal ignoring case iff their lower-case forms are equal |
| Text.IsBlankStripped | src/main/java/com/smockin/mockserver/proxy/ProxyServerUtils.java:104 | a string is blank iff it is null or nothing is left once its leading whitespace is stripped |
| Text.ParseNatToString | src/main/java/com/smockin/mockserver/proxy/ProxyServerUtils.java:103 | printing a port in decimal and reading it back gives the port |
| Utf8.Encode | src/main/java/com/smockin/mockserver/proxy/ProxyServerUtils.java:40 | a string of n characters takes between n and 4n bytes, the sum of each character's UTF-8 width |
| Utf8.DecodeEncode | src/main/java/com/smockin/mockserver/proxy/ProxyServerUtils.java:40 | decoding the UTF-8 bytes of a string gives the string back |
| Dto.NotFound | src/main/java/com/smockin/admin/service/HttpClientServiceImpl.java:62 | the status-only descriptor: 404, no content type, no headers, no body |
| Dto.HttpClientCallDTO.constructor | src/main/java/com/smockin/mockserver/proxy/ProxyServerUtils.java:61 | a new descriptor has the given URL and method, no body and an empty header map |
| HttpClientService.ValidateRequest | src/main/java/com/smockin/admin/service/HttpClientServiceImpl.java:154-164 | "url is required" iff the URL is blank; otherwise "method is required" iff the method is missing; otherwise valid |
| HttpClientService.Request.constructor | src/main/java/com/smockin/admin/service/HttpClientServiceImpl.java:108 | `Request.Get(url)` and its siblings: a request for that method and URL with no headers and no entity |
| HttpClientService.Request.SetPayload | src/main/java/com/smockin/admin/service/HttpClientServiceImpl.java:140-141 | the entity is replaced; the headers are untouched |
| HttpClientService.Request.AddHeader | src/main/java/com/smockin/admin/service/HttpClientServiceImpl.java:172-173 | `addHeader` appends, keeping earlier entries of the same name |
| HttpClientService.EntriesInOrder | src/main/java/com/smockin/admin/service/HttpClientServiceImpl.java:171-173 | the i-th entry produced is the i-th key of the iteration order with its value |
| HttpClientService.EntriesInOrderItems | src/main/java/com/smockin/admin/service/HttpClientServiceImpl.java:171-173 | walking the header map yields exactly its entries, each name once |
| HttpClientService.ApplyRequestHeaders | src/main/java/com/smockin/admin/service/HttpClientServiceImpl.java:166-174 | a null map adds nothing; otherwise every entry is appended in iteration order; the entity is untouched |
| HttpClientService.ExtractResponseHeaders | src/main/java/com/smockin/admin/service/HttpClientServiceImpl.java:176-185 | the response headers are put in order into a fresh map |
| HttpClientService.Describe | src/main/java/com/smockin/admin/service/HttpClientServiceImpl.java:196-203 | a network failure propagates; a missing content type is a NullPointerException; otherwise the descriptor has the status, content type, a key for every response header name and the body |
| HttpClientService.DescribedHeader | src/main/java/com/smockin/admin/service/HttpClientServiceImpl.java:176-185 | a response header not repeated later appears in the descriptor with its value |
| HttpClientService.ExecuteRequest | src/main/java/com/smockin/admin/service/HttpClientServiceImpl.java:192-204 | the request headers are applied before sending, and the result is the description of what the network returned for that request |
| HttpClientService.PatchPayload | src/main/java/com/smockin/admin/service/HttpClientServiceImpl.java:140-141 | the PATCH entity is null iff the body is null |
| HttpClientService.PatchPayloadFaithful | src/main/java/com/smockin/admin/service/HttpClientServiceImpl.java:140-141 | the PATCH entity's bytes decode to the body |
| HttpClientService.OutboundShape | src/main/java/com/smockin/admin/service/HttpClientServiceImpl.java:106-144 | only POST, PUT and PATCH carry an entity, and every verb sends exactly the descriptor's headers |
| HttpClientService.Send | src/main/java/com/smockin/admin/service/HttpClientServiceImpl.java:106-144 | each verb builds the request for the descriptor's URL with its entity and executes it; a null URL is a NullPointerException |
| HttpClientService.Absorb | src/main/java/com/smockin/admin/service/HttpClientServiceImpl.java:62-64 | IOException (MalformedURLException included) and MockServerException failures become the 404 descriptor; anything else passes through |
| HttpClientService.AbsorbCloses | src/main/java/com/smockin/admin/service/HttpClientServiceImpl.java:62-64 | no caught failure escapes, and catching twice is catching once |
| HttpClientService.HandleExternalCall | src/main/java/com/smockin/admin/service/HttpClientServiceImpl.java:36-65 | a validation failure propagates before anything is sent; otherwise the descriptor goes to its own URL and failures are absorbed; the descriptor is left as it was |
| HttpClientService.LoopbackUrl | src/main/java/com/smockin/admin/service/HttpClientServiceImpl.java:82 | the rewritten URL names the local host and ends with the original URL; for a port that is not negative and a URL that does not start with a digit, the digits after the host read back as the port |
| HttpClientService.HandleCallToMock | src/main/java/com/smockin/admin/service/HttpClientServiceImpl.java:68-104 | validation comes first; an engine-state failure or a stopped engine gives 404 without sending; otherwise the URL is prefixed with the loopback host and port and the call is sent there |

## Left out

- The regular-expression engine in general. The regex built by `doesPathMatch` is read back by `Compile`, which understands only literal text and PATH_VAR_REGEX.
- PathTemplate.DoesPathMatch: requires `ValidTemplate`. Literal parts must hold no regex metacharacter. Variable names must be non-empty and must not start with `!`. A bare `:` or a `:!…` part can make `replaceOnce` hit the `:` inside an earlier inserted character class, giving a mangled regex that the model does not describe.
- ProxyServerUtils.FindMockPathMatches: a mock path is kept when `PathMatches` holds, the token semantics of the template. For a template outside ValidTemplate this is not what Java's regex decides. With `/v1.0/x`, the regex's `.` also accepts `/v1X0/x`. With `/a+b`, the regex's `+` rejects `/a+b` itself. A template with an unbalanced `[` or `(` makes Java throw PatternSyntaxException, where the model returns a list. FirstFullMatch and TwoStageResolution inherit this.
- ProxyServerUtils.FindMockMatch: resolves by the same token semantics, so for an active mock whose template is outside ValidTemplate it can answer differently from the source, or answer where the source throws PatternSyntaxException.
- Utf8.Encode: Dafny strings are sequences of Unicode scalar values, and Java strings are UTF-16. `getBytes(UTF_8)` writes an unpaired surrogate as `?`, which no Dafny string holds, so the model covers only strings without unpaired surrogates.
- Utf8.DecodeEncode: the round trip is claimed for strings of scalar values. A Java string with an unpaired surrogate does not come back from its UTF-8 bytes.
- ProxyServerUtils.ContentLengthIsByteCount: "the bytes decode to the body" holds only for bodies without unpaired surrogates, for the reason above. The byte count part holds as stated.
- HttpClientService.PatchPayloadFaithful: likewise holds only for bodies without unpaired surrogates.
- Case-insensitive comparisons (`equalsIgnoreCase`, Netty header names) fold ASCII letters only. Other Unicode case pairs are not modelled.
- HttpClientUtils (get/post/put/delete/patch used by `callMock`, and `handleRequestData`) is not part of this model. `callMock` takes the sending call as a parameter. The POST and PUT entity is the opaque `RequestData(body, headers)`.
- The network is a parameter `net` from the sent request to a reply or a fault. It covers `execute()`, reading the status line, the entity and the body (`extractResponseBody`, UTF-8).
- The clock (`ProxyUtils.formatDate(new Date())`) is the parameter `date` of `BuildResponse`.
- The iteration order of a `HashMap` is a parameter `order`, constrained to list each key once.
- `new URL(...).getPath()` is a parameter `urlPath` of `FindMockMatch`, returning None where Java throws MalformedURLException. `buildMockUrl` takes the URL's path and query directly.
- The value of `GeneralUtils.PROXY_MOCK_INTERCEPT_HEADER` is not part of this model; it is the parameter `interceptHeader`.
- ProxyServerUtils.BuildResponse: requires a body and a content type. Java throws NullPointerException on either being null, and `buildResponse` has no error path to model that with.
- HttpClientService.PatchPayload: `getBytes()` uses the platform default charset. The model fixes it to UTF-8.
- HttpClientCallDTO, HttpClientResponseDTO, ProxyActiveMock, MockServerState and RestMethodEnum are not part of this model. They are modelled from their use in the two classes. The descriptor's header map is taken to be never null, as its `put` calls in `buildRequestDTO` require.
- The `default` branches of the method switches (`return null`, `ValidationException("Invalid / Unsupported method")`) cannot be reached with the five-method enum and are not modelled.
- Logging, `debugDTO`, `debugInboundRequest` and `debugMockDestRequestDTO` are left out. They have no effect on results unless debug logging is on and the method is null.
- `mockedServerEngineService.getRestServerState()` is the parameter `state`. The engine lifecycle and the proxy's front-end wiring are outside the modelled classes.
- `HttpResponseStatus.valueOf`, and `Unpooled.copiedBuffer` as a buffer object, are not modelled. The response keeps the status as an integer and the content as a byte sequence.
