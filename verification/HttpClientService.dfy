/** HttpClientServiceImpl: the dispatcher that checks an outbound call
    descriptor, sends it with the fluent HTTP client (to an external URL,
    or to the REST mock engine on the loopback interface) and turns the
    reply into an HttpClientResponseDTO. The network is a parameter. */
module HttpClientService {
  import opened Wrappers
  import opened Text
  import opened Utf8
  import opened Headers
  import opened Dto

  // ------------------------------------------------------------ validation

  /** validateRequest: a blank URL is refused first, then a missing
      method; the body is optional. */
  function ValidateRequest(url: Option<string>, httpMethod: Option<RestMethod>): (r: Option<Fault>)
    ensures r == Some(Validation("url is required")) <==> IsBlank(url)
    ensures r == Some(Validation("method is required")) <==> !IsBlank(url) && httpMethod.None?
    ensures r.None? <==> !IsBlank(url) && httpMethod.Some?
  {
    if IsBlank(url) then Some(Validation("url is required"))
    else if httpMethod.None? then Some(Validation("method is required"))
    else None
  }

  // ------------------------------------------------------------ requests

  /** What a fluent Request carries as its entity: nothing (GET, DELETE),
      the bytes given to bodyByteArray (PATCH; null allowed), or what
      HttpClientUtils.handleRequestData attaches from the body and the
      headers (POST, PUT). */
  datatype Payload =
    | NoPayload
    | ByteArray(bytes: Option<seq<byte>>)
    | RequestData(body: Option<string>, headers: map<string, string>)

  /** A request as it leaves for the network. */
  datatype SentRequest = SentRequest(httpMethod: RestMethod, url: string, headers: seq<Entry>, payload: Payload)

  /** org.apache.http.client.fluent.Request, as far as the dispatcher
      builds it: headers are added in order and the payload is set. */
  class Request {
    const httpMethod: RestMethod
    const url: string
    var headers: seq<Entry>
    var payload: Payload

    /** Request.Get, Request.Post, ...: no headers and no entity yet. */
    constructor (httpMethod: RestMethod, url: string)
      ensures this.httpMethod == httpMethod && this.url == url
      ensures headers == [] && payload == NoPayload
    {
      this.httpMethod := httpMethod;
      this.url := url;
      headers := [];
      payload := NoPayload;
    }

    /** Request.addHeader: appends, keeping any entry of the same name. */
    method AddHeader(name: string, value: string)
      modifies this
      ensures headers == old(headers) + [(name, value)]
      ensures payload == old(payload)
    {
      headers := headers + [(name, value)];
    }

    /** bodyByteArray, or the entity handleRequestData attaches: the
        payload is replaced and the headers stay as they are. */
    method SetPayload(p: Payload)
      modifies this
      ensures payload == p && headers == old(headers)
    {
      payload := p;
    }

    function Snapshot(): SentRequest
      reads this
    {
      SentRequest(httpMethod, url, headers, payload)
    }
  }

  /** The entries of `m`, in the iteration order `order`. */
  function EntriesInOrder(m: map<string, string>, order: seq<string>): (es: seq<Entry>)
    requires forall i :: 0 <= i < |order| ==> order[i] in m
    ensures |es| == |order|
    ensures forall i :: 0 <= i < |es| ==> es[i].0 == order[i] && es[i].1 == m[order[i]]
    decreases |order|
  {
    if order == [] then []
    else
      var k := order[|order| - 1];
      EntriesInOrder(m, order[..|order| - 1]) + [(k, m[k])]
  }

  /** Walking a map in an iteration order yields exactly its entries, each
      name once. */
  lemma EntriesInOrderItems(m: map<string, string>, order: seq<string>)
    requires IsIterationOrder(order, m.Keys)
    ensures var es := EntriesInOrder(m, order);
      && (forall e :: e in es <==> e in m.Items)
      && (forall i, j :: 0 <= i < j < |es| ==> es[i].0 != es[j].0)
  {
    var es := EntriesInOrder(m, order);
    forall e | e in m.Items ensures e in es {
      var i :| 0 <= i < |order| && order[i] == e.0;
      assert es[i] == e;
    }
  }

  /** applyRequestHeaders: every entry of the header map is added to the
      request; a null map adds nothing. */
  method ApplyRequestHeaders(request: Request, requestHeaders: Option<map<string, string>>, order: seq<string>)
    requires requestHeaders.Some? ==> IsIterationOrder(order, requestHeaders.value.Keys)
    modifies request
    ensures requestHeaders.None? ==> request.headers == old(request.headers)
    ensures requestHeaders.Some? ==>
      request.headers == old(request.headers) + EntriesInOrder(requestHeaders.value, order)
    ensures request.payload == old(request.payload)
  {
    if requestHeaders.None? {
      return;
    }
    var m := requestHeaders.value;
    for i := 0 to |order|
      invariant request.headers == old(request.headers) + EntriesInOrder(m, order[..i])
      invariant request.payload == old(request.payload)
    {
      assert order[..i + 1][..i] == order[..i];
      request.AddHeader(order[i], m[order[i]]);
    }
    assert order[..|order|] == order;
  }

  // ------------------------------------------------------------ responses

  /** What the network hands back: status, the entity's content type (a
      missing one is null), every header in order, and the body read as
      UTF-8. */
  datatype RawResponse = RawResponse(status: int, contentType: Option<string>, headers: seq<Entry>, body: string)

  /** extractResponseHeaders: the headers put into a fresh HashMap one
      after the other, so a repeated name keeps its last value. */
  method ExtractResponseHeaders(allHeaders: seq<Entry>) returns (m: map<string, string>)
    ensures m == PutAll(map[], allHeaders)
  {
    m := map[];
    for i := 0 to |allHeaders|
      invariant m == PutAll(map[], allHeaders[..i])
    {
      assert allHeaders[..i + 1][..i] == allHeaders[..i];
      m := m[allHeaders[i].0 := allHeaders[i].1];
    }
    assert allHeaders[..|allHeaders|] == allHeaders;
  }

  /** The descriptor executeRequest builds from what the network returned:
      a network failure propagates, a missing content type is the
      NullPointerException of `getContentType().getValue()`. */
  function Describe(reply: Result<RawResponse, Fault>): (r: Result<HttpClientResponseDTO, Fault>)
    ensures reply.Failure? ==> r == Failure(reply.error)
    ensures reply.Success? && reply.value.contentType.None? ==> r == Failure(NullPointer)
    ensures r.Success? <==> reply.Success? && reply.value.contentType.Some?
    ensures r.Success? ==>
      && r.value.status == reply.value.status
      && r.value.contentType == reply.value.contentType
      && r.value.headers.Keys == Names(reply.value.headers)
      && r.value.body == Some(reply.value.body)
  {
    match reply
    case Failure(e) => Failure(e)
    case Success(raw) =>
      if raw.contentType.None? then Failure(NullPointer)
      else Success(HttpClientResponseDTO(raw.status, raw.contentType, PutAll(map[], raw.headers), Some(raw.body)))
  }

  /** A header of the reply that no later header repeats appears in the
      descriptor with its value. */
  lemma DescribedHeader(raw: RawResponse, i: nat)
    requires raw.contentType.Some?
    requires i < |raw.headers| && forall j :: i < j < |raw.headers| ==> raw.headers[j].0 != raw.headers[i].0
    ensures var d := Describe(Success(raw)).value;
      raw.headers[i].0 in d.headers && d.headers[raw.headers[i].0] == raw.headers[i].1
  {
    PutAllLastWins(map[], raw.headers, i);
  }

  /** executeRequest: the headers are added, the request is sent, and the
      reply is described. */
  method ExecuteRequest(request: Request, requestHeaders: Option<map<string, string>>, order: seq<string>,
                        net: SentRequest -> Result<RawResponse, Fault>)
    returns (r: Result<HttpClientResponseDTO, Fault>)
    requires requestHeaders.Some? ==> IsIterationOrder(order, requestHeaders.value.Keys)
    modifies request
    ensures request.headers == old(request.headers)
      + (if requestHeaders.Some? then EntriesInOrder(requestHeaders.value, order) else [])
    ensures request.payload == old(request.payload)
    ensures r == Describe(net(request.Snapshot()))
  {
    ApplyRequestHeaders(request, requestHeaders, order);
    var reply := net(request.Snapshot());
    if reply.Failure? {
      return Failure(reply.error);
    }
    var raw := reply.value;
    if raw.contentType.None? {
      return Failure(NullPointer);
    }
    var headers := ExtractResponseHeaders(raw.headers);
    r := Success(HttpClientResponseDTO(raw.status, raw.contentType, headers, Some(raw.body)));
  }

  // ------------------------------------------------------------ the verbs

  /** The PATCH entity: the body's bytes, or null for a null body. */
  function PatchPayload(body: Option<string>): (bytes: Option<seq<byte>>)
    ensures bytes.None? <==> body.None?
  {
    if body.None? then None else Some(Encode(body.value))
  }

  /** The PATCH entity carries the body's text intact. */
  lemma PatchPayloadFaithful(body: string)
    ensures PatchPayload(Some(body)).Some? && Decode(PatchPayload(Some(body)).value) == Some(body)
  {
    DecodeEncode(body);
  }

  /** The request the verb methods send for a descriptor. */
  function Outbound(httpMethod: RestMethod, url: string, body: Option<string>,
                    headers: map<string, string>, order: seq<string>): SentRequest
    requires IsIterationOrder(order, headers.Keys)
  {
    var payload :=
      match httpMethod
      case GET => NoPayload
      case DELETE => NoPayload
      case POST => RequestData(body, headers)
      case PUT => RequestData(body, headers)
      case PATCH => ByteArray(PatchPayload(body));
    SentRequest(httpMethod, url, EntriesInOrder(headers, order), payload)
  }

  /** Only POST, PUT and PATCH carry an entity, and every request carries
      the descriptor's headers, each once. */
  lemma OutboundShape(httpMethod: RestMethod, url: string, body: Option<string>,
                      headers: map<string, string>, order: seq<string>)
    requires IsIterationOrder(order, headers.Keys)
    ensures var s := Outbound(httpMethod, url, body, headers, order);
      && (s.payload == NoPayload <==> httpMethod == GET || httpMethod == DELETE)
      && (forall e :: e in s.headers <==> e in headers.Items)
      && s.url == url
  {
    EntriesInOrderItems(headers, order);
  }

  /** Sends the descriptor's URL with `httpMethod` and the payload that verb
      takes. A null URL is the NullPointerException of Request.Get(null)
      and its siblings. */
  method Send(httpMethod: RestMethod, reqDto: HttpClientCallDTO, order: seq<string>,
              net: SentRequest -> Result<RawResponse, Fault>)
    returns (r: Result<HttpClientResponseDTO, Fault>)
    requires IsIterationOrder(order, reqDto.headers.Keys)
    ensures reqDto.url.None? ==> r == Failure(NullPointer)
    ensures reqDto.url.Some? ==>
      r == Describe(net(Outbound(httpMethod, reqDto.url.value, reqDto.body, reqDto.headers, order)))
  {
    if reqDto.url.None? {
      return Failure(NullPointer);
    }
    var request := new Request(httpMethod, reqDto.url.value);
    match httpMethod {
      case GET =>
      case DELETE =>
      case POST => request.SetPayload(RequestData(reqDto.body, reqDto.headers));
      case PUT => request.SetPayload(RequestData(reqDto.body, reqDto.headers));
      case PATCH => request.SetPayload(ByteArray(PatchPayload(reqDto.body)));
    }
    r := ExecuteRequest(request, Some(reqDto.headers), order, net);
    assert request.headers == EntriesInOrder(reqDto.headers, order);
  }

  // ------------------------------------------------------------ dispatch

  /** The faults `catch (IOException | MockServerException)` stops:
      IOException and its subclass MalformedURLException, and
      MockServerException. */
  predicate Caught(f: Fault) {
    f == IoFailure || f == MalformedUrl || f == MockServerFailure
  }

  /** The catch of the dispatcher: a caught failure becomes the 404
      descriptor; anything else passes through. */
  function Absorb(r: Result<HttpClientResponseDTO, Fault>): (a: Result<HttpClientResponseDTO, Fault>)
    ensures r.Success? ==> a == r
    ensures r.Failure? && Caught(r.error) ==> a == Success(NotFound())
    ensures r.Failure? && !Caught(r.error) ==> a == r
  {
    if r.Failure? && Caught(r.error) then Success(NotFound()) else r
  }

  /** After the catch, no caught failure escapes, and catching again
      changes nothing. */
  lemma AbsorbCloses(r: Result<HttpClientResponseDTO, Fault>)
    ensures Absorb(r).Failure? ==> !Caught(Absorb(r).error)
    ensures Absorb(Absorb(r)) == Absorb(r)
  {
  }

  /** handleExternalCall: validate, then send to the descriptor's own URL. */
  method HandleExternalCall(dto: HttpClientCallDTO, order: seq<string>,
                            net: SentRequest -> Result<RawResponse, Fault>)
    returns (r: Result<HttpClientResponseDTO, Fault>)
    requires IsIterationOrder(order, dto.headers.Keys)
    modifies dto
    ensures dto.url == old(dto.url) && dto.httpMethod == old(dto.httpMethod)
    ensures dto.body == old(dto.body) && dto.headers == old(dto.headers)
    ensures ValidateRequest(dto.url, dto.httpMethod).Some? ==>
      r == Failure(ValidateRequest(dto.url, dto.httpMethod).value)
    ensures ValidateRequest(dto.url, dto.httpMethod).None? ==>
      r == Absorb(Describe(net(Outbound(dto.httpMethod.value, dto.url.value, dto.body, dto.headers, order))))
  {
    var invalid := ValidateRequest(dto.url, dto.httpMethod);
    if invalid.Some? {
      return Failure(invalid.value);
    }
    dto.url := dto.url;
    var sent := Send(dto.httpMethod.value, dto, order, net);
    r := Absorb(sent);
  }

  /** The URL of a call routed to the mock engine on `port`. It names the
      local host, carries the engine's port in decimal, and ends with the
      descriptor's own URL. */
  function LoopbackUrl(port: int, url: string): (u: string)
    ensures StartsWith(u, "http://localhost:") && |u| > |url| && u[|u| - |url|..] == url
    ensures port >= 0 && (url == [] || !IsDigit(url[0])) ==> ParseDigits(LeadingDigits(u[17..])) == port
  {
    var host, digits := "http://localhost:", IntToString(port);
    var u := host + digits + url;
    assert |host| == 17 && u == host + (digits + url);
    assert u[..17] == host && u[|u| - |url|..] == url;
    assert port >= 0 && (url == [] || !IsDigit(url[0])) ==> ParseDigits(LeadingDigits(u[17..])) == port by {
      if port >= 0 && (url == [] || !IsDigit(url[0])) {
        NumberAfterPrefix(host, port, url);
      }
    }
    u
  }

  /** handleCallToMock: validate, read the engine's state, answer 404 when
      it is not running, otherwise point the descriptor at the engine's
      port and send it there. */
  method HandleCallToMock(dto: HttpClientCallDTO, state: Result<MockServerState, Fault>, order: seq<string>,
                          net: SentRequest -> Result<RawResponse, Fault>)
    returns (r: Result<HttpClientResponseDTO, Fault>)
    requires IsIterationOrder(order, dto.headers.Keys)
    modifies dto
    ensures dto.httpMethod == old(dto.httpMethod) && dto.body == old(dto.body) && dto.headers == old(dto.headers)
    ensures ValidateRequest(old(dto.url), dto.httpMethod).Some? ==>
      r == Failure(ValidateRequest(old(dto.url), dto.httpMethod).value) && dto.url == old(dto.url)
    ensures ValidateRequest(old(dto.url), dto.httpMethod).None? && state.Failure? ==>
      r == Absorb(Failure(state.error)) && dto.url == old(dto.url)
    ensures ValidateRequest(old(dto.url), dto.httpMethod).None? && state.Success? && !state.value.running ==>
      r == Success(NotFound()) && dto.url == old(dto.url)
    ensures ValidateRequest(old(dto.url), dto.httpMethod).None? && state.Success? && state.value.running ==>
      && dto.url == Some(LoopbackUrl(state.value.port, old(dto.url).value))
      && r == Absorb(Describe(net(Outbound(dto.httpMethod.value, dto.url.value, dto.body, dto.headers, order))))
  {
    var invalid := ValidateRequest(dto.url, dto.httpMethod);
    if invalid.Some? {
      return Failure(invalid.value);
    }
    if state.Failure? {
      return Absorb(Failure(state.error));
    }
    if !state.value.running {
      return Success(NotFound());
    }
    dto.url := Some(LoopbackUrl(state.value.port, dto.url.value));
    var sent := Send(dto.httpMethod.value, dto, order, net);
    r := Absorb(sent);
  }
}
