/** Decoded request/response pairs, as the streamer emits them and the recorder consumes them. */
module Exchanges {
  import opened Bytes
  import opened RedisCalls

  datatype Protocol = ProtocolUnknown | ProtocolHTTP | ProtocolRedis

  /** The parts of a parsed HTTP message that a recording keeps. */
  datatype HTTPRequest = HTTPRequest(verb: bytes, path: bytes, body: bytes)
  datatype HTTPResponse = HTTPResponse(status: int, body: bytes)
  datatype HTTPExchange = HTTPExchange(request: Option<HTTPRequest>, response: Option<HTTPResponse>)

  /** `TryHTTP` over the read and the write buffer; its parser is not part of this model. */
  type Sniffer = (bytes, bytes) -> Option<HTTPExchange>

  datatype Exchange = Exchange(
    pid: int,
    fd: int,
    protocol: Protocol,
    http: Option<HTTPExchange>,
    redis: seq<RedisCall>,
    truncated: bool)

  /** `decode`: HTTP first, then RESP with the written bytes as commands. At most one exchange. */
  function Decode(sniff: Sniffer, pid: int, fd: int, read: bytes, write: bytes, truncated: bool)
    : (r: seq<Exchange>)
    ensures |r| <= 1
  {
    var http := sniff(read, write);
    if http.Some? then [Exchange(pid, fd, ProtocolHTTP, http, [], truncated)]
    else
      var calls := TryCalls(write, read);
      if calls != [] then [Exchange(pid, fd, ProtocolRedis, None, calls, truncated)] else []
  }
}
