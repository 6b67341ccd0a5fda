/** The values and objects handed between the proxy, the dispatcher and the
    mock engine. */
module Dto {
  import opened Wrappers
  import opened Headers

  /** RestMethodEnum: the five methods a mock can be defined for. */
  datatype RestMethod = GET | POST | PUT | DELETE | PATCH {
    /** Enum.name(). */
    function Name(): string {
      match this
      case GET => "GET"
      case POST => "POST"
      case PUT => "PUT"
      case DELETE => "DELETE"
      case PATCH => "PATCH"
    }
  }

  /** The ways a call can fail: the checked exceptions the code catches or
      throws (MalformedURLException is an IOException of its own kind), the
      NullPointerException of a missing value, and the
      IllegalArgumentException of a URL the request builder cannot parse. */
  datatype Fault =
    | IoFailure
    | MockServerFailure
    | MalformedUrl
    | NullPointer
    | IllegalArgument
    | Validation(message: string)

  /** An active mock, as far as resolution looks at it. */
  datatype ProxyActiveMock = ProxyActiveMock(path: string, httpMethod: RestMethod)

  /** The running flag and port of the REST mock engine. */
  datatype MockServerState = MockServerState(running: bool, port: int)

  /** What the proxy knows of an intercepted request: its body, if any,
      and its headers in arrival order. */
  datatype LittleProxyContext = LittleProxyContext(requestBody: Option<string>, requestHeaders: seq<Entry>)

  /** HttpClientResponseDTO. The missing values of the status-only
      constructor are None and the empty map. */
  datatype HttpClientResponseDTO = HttpClientResponseDTO(
    status: int,
    contentType: Option<string>,
    headers: map<string, string>,
    body: Option<string>)

  /** The 404 descriptor the dispatcher answers with when a call fails. */
  function NotFound(): (r: HttpClientResponseDTO)
    ensures r.status == 404 && r.contentType.None? && r.body.None? && r.headers == map[]
  {
    HttpClientResponseDTO(404, None, map[], None)
  }

  /** The fields of an outbound call descriptor at the moment it is handed
      to the HTTP client. */
  datatype OutboundCall = OutboundCall(url: Option<string>, body: Option<string>, headers: map<string, string>)

  /** HttpClientCallDTO, the outbound call descriptor, whose fields the
      proxy and the dispatcher update in place. */
  class HttpClientCallDTO {
    var url: Option<string>
    var httpMethod: Option<RestMethod>
    var body: Option<string>
    var headers: map<string, string>

    constructor (url: Option<string>, httpMethod: Option<RestMethod>)
      ensures this.url == url && this.httpMethod == httpMethod
      ensures body.None? && headers == map[]
    {
      this.url := url;
      this.httpMethod := httpMethod;
      body := None;
      headers := map[];
    }

    function Snapshot(): OutboundCall
      reads this
    {
      OutboundCall(url, body, headers)
    }
  }
}
