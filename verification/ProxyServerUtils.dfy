/** ProxyServerUtils: the intercepting proxy's decisions. Which active mock
    an inbound request resolves to, the loopback URL of the mock engine,
    the outbound call descriptor, the clean-up of its headers, and the wire
    response built from a response descriptor. */
module ProxyServerUtils {
  import opened Wrappers
  import opened Text
  import opened Utf8
  import opened Headers
  import opened PathTemplate
  import opened Dto

  const MOCK_SERVER_HOST: string := "http://localhost:"

  // ------------------------------------------------------------ resolution

  /** findMockPathMatches: the active mocks whose template matches the
      inbound path, in registry order. */
  function FindMockPathMatches(inboundPath: string, activeMocks: seq<ProxyActiveMock>): (r: seq<ProxyActiveMock>)
    ensures |r| <= |activeMocks|
    ensures forall m :: m in r <==> m in activeMocks && PathMatches(inboundPath, m.path)
  {
    if activeMocks == [] then []
    else
      assert activeMocks == [activeMocks[0]] + activeMocks[1..];
      (if PathMatches(inboundPath, activeMocks[0].path) then [activeMocks[0]] else [])
      + FindMockPathMatches(inboundPath, activeMocks[1..])
  }

  /** The filter keeps the registry order: filtering a concatenation is
      concatenating the filtered parts. */
  lemma {:induction false} FindMockPathMatchesConcat(inboundPath: string, a: seq<ProxyActiveMock>, b: seq<ProxyActiveMock>)
    ensures FindMockPathMatches(inboundPath, a + b)
            == FindMockPathMatches(inboundPath, a) + FindMockPathMatches(inboundPath, b)
  {
    if a == [] {
      assert a + b == b;
    } else {
      assert (a + b)[0] == a[0];
      assert (a + b)[1..] == a[1..] + b;
      FindMockPathMatchesConcat(inboundPath, a[1..], b);
    }
  }

  /** The mock's method name equals the inbound method, ignoring case. */
  predicate MethodMatches(mock: ProxyActiveMock, inboundMethod: string) {
    EqualsIgnoreCase(mock.httpMethod.Name(), inboundMethod)
  }

  /** findMockMethodMatch: nothing for an empty list, otherwise the first
      mock whose method matches, or nothing when none does. */
  function FindMockMethodMatch(inboundMethod: string, pathMatches: seq<ProxyActiveMock>): (r: Option<ProxyActiveMock>)
    ensures r.None? <==> forall i :: 0 <= i < |pathMatches| ==> !MethodMatches(pathMatches[i], inboundMethod)
    ensures r.Some? ==> exists i :: 0 <= i < |pathMatches| && pathMatches[i] == r.value
                                  && MethodMatches(r.value, inboundMethod)
                                  && forall j :: 0 <= j < i ==> !MethodMatches(pathMatches[j], inboundMethod)
  {
    if pathMatches == [] then None
    else if MethodMatches(pathMatches[0], inboundMethod) then Some(pathMatches[0])
    else
      var r := FindMockMethodMatch(inboundMethod, pathMatches[1..]);
      assert r.Some? ==> exists i :: 0 <= i < |pathMatches| && pathMatches[i] == r.value
                                  && MethodMatches(r.value, inboundMethod)
                                  && forall j :: 0 <= j < i ==> !MethodMatches(pathMatches[j], inboundMethod) by {
        if r.Some? {
          var i :| 0 <= i < |pathMatches[1..]| && pathMatches[1..][i] == r.value
                  && MethodMatches(r.value, inboundMethod)
                  && forall j :: 0 <= j < i ==> !MethodMatches(pathMatches[1..][j], inboundMethod);
          assert pathMatches[i + 1] == r.value;
          forall j | 0 <= j < i + 1 ensures !MethodMatches(pathMatches[j], inboundMethod) {
            if j > 0 { assert pathMatches[j] == pathMatches[1..][j - 1]; }
          }
        }
      }
      r
  }

  /** Resolution in one pass: the first registered mock that matches both
      the path and the method. */
  function FirstFullMatch(inboundPath: string, inboundMethod: string, activeMocks: seq<ProxyActiveMock>): Option<ProxyActiveMock> {
    if activeMocks == [] then None
    else if PathMatches(inboundPath, activeMocks[0].path) && MethodMatches(activeMocks[0], inboundMethod)
    then Some(activeMocks[0])
    else FirstFullMatch(inboundPath, inboundMethod, activeMocks[1..])
  }

  /** The two stages (filter by path, then first by method) resolve to the
      first registered mock that matches both. */
  lemma {:induction false} TwoStageResolution(inboundPath: string, inboundMethod: string, activeMocks: seq<ProxyActiveMock>)
    ensures FindMockMethodMatch(inboundMethod, FindMockPathMatches(inboundPath, activeMocks))
            == FirstFullMatch(inboundPath, inboundMethod, activeMocks)
  {
    if activeMocks != [] {
      TwoStageResolution(inboundPath, inboundMethod, activeMocks[1..]);
      var rest := FindMockPathMatches(inboundPath, activeMocks[1..]);
      if PathMatches(inboundPath, activeMocks[0].path) {
        var pm := [activeMocks[0]] + rest;
        assert FindMockPathMatches(inboundPath, activeMocks) == pm;
        assert pm[0] == activeMocks[0] && pm[1..] == rest;
      } else {
        assert FindMockPathMatches(inboundPath, activeMocks) == [] + rest;
        assert [] + rest == rest;
      }
    }
  }

  /** findMockMatch: the path of the inbound URI (after the dummy prefix)
      as the URL parser reads it, or MalformedURLException; then the two
      resolution stages. `urlPath` stands for `new URL(..).getPath()`. */
  function FindMockMatch(uri: string, inboundMethod: string, activeMocks: seq<ProxyActiveMock>,
                         urlPath: string -> Option<string>): (r: Result<Option<ProxyActiveMock>, Fault>)
    ensures r.Failure? <==> urlPath(FixProtocolWithDummyPrefix(uri)).None?
    ensures r.Failure? ==> r.error == MalformedUrl
    ensures r.Success? ==> r.value == FirstFullMatch(urlPath(FixProtocolWithDummyPrefix(uri)).value, inboundMethod, activeMocks)
  {
    match urlPath(FixProtocolWithDummyPrefix(uri))
    case None => Failure(MalformedUrl)
    case Some(path) =>
      TwoStageResolution(path, inboundMethod, activeMocks);
      Success(FindMockMethodMatch(inboundMethod, FindMockPathMatches(path, activeMocks)))
  }

  /** `/users/:id` matches `/users/` followed by a segment exactly when the
      segment is one or more characters of the class. */
  lemma UsersPathMatches(segment: string)
    ensures PathMatches("/users/" + segment, "/users/:id") <==> segment != [] && AllInPathVarClass(segment)
  {
    var a, b := "/users/", "";
    var s := a + segment;
    assert a + ":" + "id" + b == "/users/:id";
    OneVariableMatch(s, a, "id", b);
    assert s[..|a|] == a;
    assert s[|s| - |b|..] == b;
    assert s[|a|..|s| - |b|] == segment;
  }

  /** `/users/:id` does not match `/users`: the variable needs a segment. */
  lemma UsersPathNeedsSegment()
    ensures !PathMatches("/users", "/users/:id")
  {
    assert "/users/" + ":" + "id" + "" == "/users/:id";
    OneVariableMatch("/users", "/users/", "id", "");
  }

  /** One GET mock on `/users/:id`: GET /users/42 resolves to it, GET /users
      (no segment) and POST /users/42 do not. */
  lemma UsersScenario()
    ensures var mocks := [ProxyActiveMock("/users/:id", GET)];
      && FindMockMethodMatch("GET", FindMockPathMatches("/users/42", mocks)) == Some(mocks[0])
      && FindMockMethodMatch("GET", FindMockPathMatches("/users", mocks)) == None
      && FindMockMethodMatch("POST", FindMockPathMatches("/users/42", mocks)) == None
  {
    var mocks := [ProxyActiveMock("/users/:id", GET)];
    UsersPathMatches("42");
    assert "/users/" + "42" == "/users/42";
    UsersPathNeedsSegment();
    assert MethodMatches(mocks[0], "GET");
    assert !MethodMatches(mocks[0], "POST");
    ResolveSingle("/users/42", "GET", mocks[0]);
    ResolveSingle("/users", "GET", mocks[0]);
    ResolveSingle("/users/42", "POST", mocks[0]);
  }

  /** Resolution against a registry of one mock. */
  lemma ResolveSingle(inboundPath: string, inboundMethod: string, mock: ProxyActiveMock)
    ensures FindMockMethodMatch(inboundMethod, FindMockPathMatches(inboundPath, [mock]))
            == if PathMatches(inboundPath, mock.path) && MethodMatches(mock, inboundMethod) then Some(mock) else None
  {
    TwoStageResolution(inboundPath, inboundMethod, [mock]);
  }

  // ------------------------------------------------------------ mock URL

  /** The loopback URL of the mock engine: host and port, the user context
      when it is not blank, the inbound path, and the query when present. */
  /** The URL names the loopback host, and the port reads back from the
      digits that follow it, since what comes next (the context, the path
      or the query) starts with `/` or `?`. */
  function MockUrl(inboundPath: string, inboundQuery: Option<string>, mockServerPort: int, userCtx: Option<string>): (u: string)
    ensures StartsWith(u, MOCK_SERVER_HOST)
    ensures mockServerPort >= 0 && (inboundPath == [] || inboundPath[0] == '/') ==>
      ParseDigits(LeadingDigits(u[|MOCK_SERVER_HOST|..])) == mockServerPort
  {
    var digits, rest := IntToString(mockServerPort), ContextPart(userCtx) + inboundPath + QueryPart(inboundQuery);
    var u := MOCK_SERVER_HOST + digits + ContextPart(userCtx) + inboundPath + QueryPart(inboundQuery);
    Regroup(MOCK_SERVER_HOST, digits, ContextPart(userCtx), inboundPath, QueryPart(inboundQuery));
    assert u[..|MOCK_SERVER_HOST|] == MOCK_SERVER_HOST;
    assert mockServerPort >= 0 && (inboundPath == [] || inboundPath[0] == '/') ==>
      ParseDigits(LeadingDigits(u[|MOCK_SERVER_HOST|..])) == mockServerPort by {
      if mockServerPort >= 0 && (inboundPath == [] || inboundPath[0] == '/') {
        assert rest == [] || rest[0] == '/' || rest[0] == '?';
        NumberAfterPrefix(MOCK_SERVER_HOST, mockServerPort, rest);
      }
    }
    u
  }

  function ContextPart(userCtx: Option<string>): string {
    if !IsBlank(userCtx) then "/" + userCtx.value else ""
  }

  function QueryPart(inboundQuery: Option<string>): string {
    if inboundQuery.Some? then "?" + inboundQuery.value else ""
  }

  /** buildMockUrl, appending to a buffer piece by piece. */
  method BuildMockUrl(inboundPath: string, inboundQuery: Option<string>, mockServerPort: int, userCtx: Option<string>)
    returns (mockUrl: string)
    ensures mockUrl == MockUrl(inboundPath, inboundQuery, mockServerPort, userCtx)
  {
    mockUrl := [];
    assert mockUrl + MOCK_SERVER_HOST == MOCK_SERVER_HOST;
    mockUrl := mockUrl + MOCK_SERVER_HOST;
    mockUrl := mockUrl + IntToString(mockServerPort);
    ghost var prefix := mockUrl;
    if !IsBlank(userCtx) {
      mockUrl := mockUrl + "/";
      mockUrl := mockUrl + userCtx.value;
    }
    assert mockUrl == prefix + ContextPart(userCtx);
    mockUrl := mockUrl + inboundPath;
    prefix := mockUrl;
    if inboundQuery.Some? {
      mockUrl := mockUrl + "?";
      mockUrl := mockUrl + inboundQuery.value;
    }
    assert mockUrl == prefix + QueryPart(inboundQuery);
  }

  lemma Regroup(h: string, p: string, c: string, i: string, q: string)
    ensures h + p + c + i + q == h + (p + (c + i + q))
  {
    assert h + p + c + i == (h + p) + (c + i);
    assert (h + p) + (c + i) + q == (h + p) + (c + i + q);
  }

  // ------------------------------------------------------------ outbound call

  /** buildRequestDTO: the body only for POST and PUT, every inbound header
      put in arrival order, then the intercept header forced to "true".
      The name of that header is defined in GeneralUtils, which is not part
      of this model, so it is a parameter. */
  method BuildRequestDTO(context: LittleProxyContext, httpMethod: RestMethod, destUrl: string, interceptHeader: string)
    returns (dto: HttpClientCallDTO)
    ensures fresh(dto)
    ensures dto.url == Some(destUrl) && dto.httpMethod == Some(httpMethod)
    ensures dto.body == if httpMethod == POST || httpMethod == PUT then context.requestBody else None
    ensures dto.headers == PutAll(map[], context.requestHeaders)[interceptHeader := "true"]
  {
    dto := new HttpClientCallDTO(Some(destUrl), Some(httpMethod));
    if httpMethod == POST || httpMethod == PUT {
      dto.body := context.requestBody;
    }
    var hs := context.requestHeaders;
    for i := 0 to |hs|
      invariant dto.url == Some(destUrl) && dto.httpMethod == Some(httpMethod)
      invariant dto.body == if httpMethod == POST || httpMethod == PUT then context.requestBody else None
      invariant dto.headers == PutAll(map[], hs[..i])
    {
      assert hs[..i + 1][..i] == hs[..i];
      dto.headers := dto.headers[hs[i].0 := hs[i].1];
    }
    assert hs[..|hs|] == hs;
    dto.headers := dto.headers[interceptHeader := "true"];
  }

  /** The outbound header map: exactly the inbound names and the intercept
      header; the intercept header reads "true" even when an inbound header
      had its name; any other name reads the value of its last inbound
      entry. */
  lemma OutboundHeaders(hs: seq<Entry>, interceptHeader: string)
    ensures var r := PutAll(map[], hs)[interceptHeader := "true"];
      && r.Keys == Names(hs) + {interceptHeader}
      && r[interceptHeader] == "true"
      && forall i :: (0 <= i < |hs| && hs[i].0 != interceptHeader
                      && forall j :: i < j < |hs| ==> hs[j].0 != hs[i].0) ==> r[hs[i].0] == hs[i].1
  {
    forall i | 0 <= i < |hs| && hs[i].0 != interceptHeader && (forall j :: i < j < |hs| ==> hs[j].0 != hs[i].0)
      ensures hs[i].0 in PutAll(map[], hs) && PutAll(map[], hs)[hs[i].0] == hs[i].1
    {
      PutAllLastWins(map[], hs, i);
    }
  }

  /** The header names that sanitizeRequestHeaders removes. */
  predicate IsContentLength(name: string) {
    EqualsIgnoreCase("Content-Length", name)
  }

  /** The header map without its Content-Length entries. */
  function RemoveContentLength(headers: map<string, string>): (r: map<string, string>)
    ensures forall k :: k in r <==> k in headers && !IsContentLength(k)
    ensures forall k :: k in r ==> r[k] == headers[k]
  {
    map k | k in headers && !IsContentLength(k) :: headers[k]
  }

  /** Removing twice removes nothing more. */
  lemma RemoveContentLengthIdempotent(headers: map<string, string>)
    ensures RemoveContentLength(RemoveContentLength(headers)) == RemoveContentLength(headers)
  {
    var once := RemoveContentLength(headers);
    assert RemoveContentLength(once).Keys == once.Keys;
  }

  /** No spelling of the name survives: every remaining name differs,
      ignoring case, from every way of writing Content-Length. */
  lemma RemoveContentLengthAnyCase(headers: map<string, string>, spelling: string)
    requires IsContentLength(spelling)
    ensures forall k :: k in RemoveContentLength(headers) ==> !EqualsIgnoreCase(k, spelling)
  {
    forall k | k in RemoveContentLength(headers) ensures !EqualsIgnoreCase(k, spelling) {
      if EqualsIgnoreCase(k, spelling) {
        EqualsIgnoreCaseSymmetric(k, spelling);
        EqualsIgnoreCaseTransitive("Content-Length", spelling, k);
      }
    }
  }

  /** sanitizeRequestHeaders: the descriptor's header map is replaced by
      the same map without its Content-Length entries. */
  method SanitizeRequestHeaders(dto: HttpClientCallDTO)
    modifies dto
    ensures dto.headers == RemoveContentLength(old(dto.headers))
    ensures dto.url == old(dto.url) && dto.httpMethod == old(dto.httpMethod) && dto.body == old(dto.body)
  {
    dto.headers := RemoveContentLength(dto.headers);
  }

  /** callMock: sanitize, then hand the descriptor to the HTTP client call
      for its method. `send` stands for HttpClientUtils.get/post/put/delete/
      patch; switching on a missing method throws NullPointerException. */
  method CallMock(dto: HttpClientCallDTO, send: (RestMethod, OutboundCall) -> Result<HttpClientResponseDTO, Fault>)
    returns (r: Result<HttpClientResponseDTO, Fault>)
    modifies dto
    ensures dto.headers == RemoveContentLength(old(dto.headers))
    ensures dto.url == old(dto.url) && dto.httpMethod == old(dto.httpMethod) && dto.body == old(dto.body)
    ensures forall k :: k in dto.headers ==> !IsContentLength(k)
    ensures dto.httpMethod.None? ==> r == Failure(NullPointer)
    ensures dto.httpMethod.Some? ==> r == send(dto.httpMethod.value, dto.Snapshot())
  {
    SanitizeRequestHeaders(dto);
    match dto.httpMethod {
      case None => r := Failure(NullPointer);
      case Some(m) =>
        match m {
          case GET => r := send(GET, dto.Snapshot());
          case POST => r := send(POST, dto.Snapshot());
          case PUT => r := send(PUT, dto.Snapshot());
          case DELETE => r := send(DELETE, dto.Snapshot());
          case PATCH => r := send(PATCH, dto.Snapshot());
        }
    }
  }

  // ------------------------------------------------------------ helpers

  /** excludeInboundMethod: CONNECT, OPTIONS and TRACE, in any case. */
  function ExcludeInboundMethod(inboundMethod: string): (excluded: bool)
    ensures excluded <==> Lower(inboundMethod) in ["connect", "options", "trace"]
  {
    EqualsLowerForm("CONNECT", "connect", inboundMethod);
    EqualsLowerForm("OPTIONS", "options", inboundMethod);
    EqualsLowerForm("TRACE", "trace", inboundMethod);
    || EqualsIgnoreCase("CONNECT", inboundMethod)
    || EqualsIgnoreCase("OPTIONS", inboundMethod)
    || EqualsIgnoreCase("TRACE", inboundMethod)
  }

  /** No method a mock can be defined for is excluded, so exclusion never
      hides a mock. */
  lemma NoMockMethodExcluded(m: RestMethod)
    ensures !ExcludeInboundMethod(m.Name())
  {
    if m == PATCH {
      assert ToLower("TRACE"[0]) != ToLower("PATCH"[0]);
    }
  }

  /** Exclusion does not depend on the case the method is written in. */
  lemma ExcludeIgnoresCase(a: string, b: string)
    requires EqualsIgnoreCase(a, b)
    ensures ExcludeInboundMethod(a) == ExcludeInboundMethod(b)
  {
    EqualsIgnoreCaseSymmetric(a, b);
    forall n | n in ["CONNECT", "OPTIONS", "TRACE"]
      ensures EqualsIgnoreCase(n, a) == EqualsIgnoreCase(n, b)
    {
      if EqualsIgnoreCase(n, a) { EqualsIgnoreCaseTransitive(n, a, b); }
      if EqualsIgnoreCase(n, b) { EqualsIgnoreCaseTransitive(n, b, a); }
    }
  }

  /** fixProtocolWithDummyPrefix: a URI that does not start with "http" gets
      the prefix "https://dummyhost"; the result always starts with "http"
      and ends with the URI. */
  function FixProtocolWithDummyPrefix(uri: string): (r: string)
    ensures StartsWith(r, "http")
    ensures StartsWith(uri, "http") ==> r == uri
    ensures !StartsWith(uri, "http") ==> r == "https://dummyhost" + uri
  {
    if !StartsWith(uri, "http") then
      assert ("https://dummyhost" + uri)[..4] == "http";
      "https://dummyhost" + uri
    else uri
  }

  /** Fixing a fixed URI changes nothing, and the URI survives as a suffix. */
  lemma FixProtocolIdempotent(uri: string)
    ensures FixProtocolWithDummyPrefix(FixProtocolWithDummyPrefix(uri)) == FixProtocolWithDummyPrefix(uri)
    ensures var r := FixProtocolWithDummyPrefix(uri); r[|r| - |uri|..] == uri
  {
    var r := FixProtocolWithDummyPrefix(uri);
    if !StartsWith(uri, "http") {
      assert r[|r| - |uri|..] == uri;
    }
  }

  // ------------------------------------------------------------ response

  /** The Netty response under construction: status and content are fixed
      when it is created, the headers are set one after another. */
  class WireResponse {
    const status: int
    const content: seq<byte>
    var headers: seq<Entry>

    constructor (status: int, content: seq<byte>)
      ensures this.status == status && this.content == content && headers == []
    {
      this.status := status;
      this.content := content;
      headers := [];
    }

    /** headers().set(name, value). */
    method Set(name: string, value: string)
      modifies this
      ensures headers == SetHeader(old(headers), name, value)
    {
      headers := SetHeader(headers, name, value);
    }
  }

  /** The headers buildResponse sets before the descriptor's own. */
  function FixedHeaders(contentLength: nat, contentType: string, date: string): seq<Entry> {
    var h1 := SetHeader([], "Content-Length", NatToString(contentLength));
    var h2 := SetHeader(h1, "Content-Type", contentType);
    var h3 := SetHeader(h2, "Date", date);
    SetHeader(h3, "Connection", "close")
  }

  /** buildResponse. The body is sent as its UTF-8 bytes; Content-Length,
      Content-Type, Date and Connection are set, then every descriptor
      header in the map's iteration order `order`. The clock reading is the
      parameter `date`. The source dereferences the body and the content
      type, so both must be present. */
  method BuildResponse(dto: HttpClientResponseDTO, date: string, order: seq<string>) returns (response: WireResponse)
    requires dto.body.Some? && dto.contentType.Some?
    requires IsIterationOrder(order, dto.headers.Keys)
    ensures fresh(response)
    ensures response.status == dto.status && response.content == Encode(dto.body.value)
    ensures response.headers == SetAll(FixedHeaders(|Encode(dto.body.value)|, dto.contentType.value, date), order, dto.headers)
  {
    var bytes := Encode(dto.body.value);
    response := new WireResponse(dto.status, bytes);
    response.Set("Content-Length", NatToString(|bytes|));
    response.Set("Content-Type", dto.contentType.value);
    response.Set("Date", date);
    response.Set("Connection", "close");
    for i := 0 to |order|
      invariant response.status == dto.status && response.content == bytes
      invariant response.headers == SetAll(FixedHeaders(|bytes|, dto.contentType.value, date), order[..i], dto.headers)
    {
      assert order[..i + 1][..i] == order[..i];
      response.Set(order[i], dto.headers[order[i]]);
    }
    assert order[..|order|] == order;
  }

  /** What each forced header reads in the finished response: its forced
      value, unless a descriptor header of the same name (ignoring case)
      overrides it, in which case the last such header's value. */
  lemma ForcedHeaders(n: nat, contentType: string, date: string, order: seq<string>, m: map<string, string>)
    requires forall i :: 0 <= i < |order| ==> order[i] in m
    ensures var hs := SetAll(FixedHeaders(n, contentType, date), order, m);
      && GetHeader(hs, "Content-Length") == (match LastNamed(order, "Content-Length")
                                            case Some(k) => Some(m[k]) case None => Some(NatToString(n)))
      && GetHeader(hs, "Content-Type") == (match LastNamed(order, "Content-Type")
                                          case Some(k) => Some(m[k]) case None => Some(contentType))
      && GetHeader(hs, "Date") == (match LastNamed(order, "Date")
                                  case Some(k) => Some(m[k]) case None => Some(date))
      && GetHeader(hs, "Connection") == (match LastNamed(order, "Connection")
                                        case Some(k) => Some(m[k]) case None => Some("close"))
  {
    var fixed := FixedHeaders(n, contentType, date);
    var names := ["Content-Length", "Content-Type", "Date", "Connection"];
    forall q | q in names
      ensures GetHeader(SetAll(fixed, order, m), q)
              == match LastNamed(order, q) case Some(k) => Some(m[k]) case None => GetHeader(fixed, q)
    {
      GetAfterSetAll(fixed, order, m, q);
    }
    var h1 := SetHeader([], "Content-Length", NatToString(n));
    var h2 := SetHeader(h1, "Content-Type", contentType);
    var h3 := SetHeader(h2, "Date", date);
    forall q | q in names
      ensures GetHeader(fixed, q) == if q == "Connection" then Some("close") else GetHeader(h3, q)
    {
      GetAfterSet(h3, "Connection", "close", q);
    }
    forall q | q in names
      ensures GetHeader(h3, q) == if q == "Date" then Some(date) else GetHeader(h2, q)
    {
      GetAfterSet(h2, "Date", date, q);
    }
    forall q | q in names
      ensures GetHeader(h2, q) == if q == "Content-Type" then Some(contentType) else GetHeader(h1, q)
    {
      GetAfterSet(h1, "Content-Type", contentType, q);
    }
    GetAfterSet([], "Content-Length", NatToString(n), "Content-Length");
  }

  /** The Content-Length of a response whose descriptor does not override
      it is the number of UTF-8 bytes of the body, and those bytes decode
      to the body again. */
  lemma ContentLengthIsByteCount(body: string, contentType: string, date: string, order: seq<string>, m: map<string, string>)
    requires forall i :: 0 <= i < |order| ==> order[i] in m
    requires LastNamed(order, "Content-Length").None?
    ensures var value := GetHeader(SetAll(FixedHeaders(|Encode(body)|, contentType, date), order, m), "Content-Length");
      && value.Some?
      && (forall i :: 0 <= i < |value.value| ==> IsDigit(value.value[i]))
      && ParseDigits(value.value) == |Encode(body)|
    ensures Decode(Encode(body)) == Some(body)
  {
    ForcedHeaders(|Encode(body)|, contentType, date, order, m);
    ParseNatToString(|Encode(body)|);
    DecodeEncode(body);
  }

  /** buildBadResponse: 400, an HTML content type and an empty body, hence
      Content-Length 0. */
  method BuildBadResponse(date: string) returns (response: WireResponse)
    ensures fresh(response)
    ensures response.status == 400 && response.content == []
    ensures response.headers == FixedHeaders(0, "text/html; charset=UTF-8", date)
    ensures GetHeader(response.headers, "Content-Length") == Some("0")
    ensures GetHeader(response.headers, "Content-Type") == Some("text/html; charset=UTF-8")
    ensures GetHeader(response.headers, "Connection") == Some("close")
  {
    var dto := HttpClientResponseDTO(400, Some("text/html; charset=UTF-8"), map[], Some(""));
    response := BuildResponse(dto, date, []);
    ForcedHeaders(0, "text/html; charset=UTF-8", date, [], map[]);
  }
}
