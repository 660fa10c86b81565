/**
 * The RPC server (micro/rpc3/server.go): registries of serializers by code and
 * of services by name, the dispatch of one decoded request to a service
 * method, and the per-connection loop that reads request frames and writes
 * response frames.
 */
module Server {
  import opened Wrappers
  import opened Seqs
  import opened Bytes
  import opened Serialize
  import opened Conn
  import opened Rpc3Tcp
  import Req = Request
  import Resp = Response

  /** A service method: its result (Nil for a nil pointer) and its error. */
  type Method = Value -> (Value, Option<Error>)

  /** A registered service: its Name() and, by name, the methods reflection finds on it. */
  datatype Service = Service(name: seq<byte>, methods: map<seq<byte>, Method>)

  const ServiceNotAvailable: Error := Ascii("service not available")

  /** The error for a serializer code no serializer is registered under; it names the code in decimal. */
  function NotSupportedSerializer(code: byte): Error
  {
    Ascii("micro: not supported serializer ") + Decimal(code)
  }

  /** Two codes that give the same error text are the same code. */
  lemma NotSupportedSerializerNamesCode(a: byte, b: byte)
    requires NotSupportedSerializer(a) == NotSupportedSerializer(b)
    ensures a == b
  {
    var prefix := Ascii("micro: not supported serializer ");
    assert Decimal(a) == NotSupportedSerializer(a)[|prefix|..];
    assert Decimal(b) == NotSupportedSerializer(b)[|prefix|..];
    DecimalInjective(a, b);
  }

  /**
   * A request whose service is registered names a method the service has:
   * reflection would otherwise hand back an invalid method and panic.
   */
  predicate MethodFound(stubs: map<seq<byte>, Service>, req: Req.Request)
  {
    req.serviceName in stubs ==> req.methodName in stubs[req.serviceName].methods
  }

  /**
   * reflectionStub.invoke: decode the argument with the serializer the request
   * names, call the method, encode its result; the bytes and the method's error.
   */
  function StubInvoke(service: Service, serializers: map<byte, Serializer>, req: Req.Request)
    : (out: (Option<seq<byte>>, Option<Error>))
    requires req.methodName in service.methods
    ensures req.serializer !in serializers ==>
      out == (None, Some(NotSupportedSerializer(req.serializer)))
    ensures req.serializer in serializers ==>
      var s := serializers[req.serializer];
      var arg := s.decode(req.data.GetOr([]));
      && (arg.Err? ==> out == (None, Some(arg.error)))
      && (arg.Ok? ==>
            var (res, merr) := service.methods[req.methodName](arg.value);
            && (res.Nil? ==> out == (None, merr))
            && (!res.Nil? && s.encode(res).Err? ==> out == (None, Some(s.encode(res).error)))
            && (!res.Nil? && s.encode(res).Ok? ==> out == (Some(s.encode(res).value), merr)))
  {
    if req.serializer !in serializers then
      (None, Some(NotSupportedSerializer(req.serializer)))
    else
      var s := serializers[req.serializer];
      match s.decode(req.data.GetOr([]))
      case Err(e) => (None, Some(e))
      case Ok(arg) =>
        var (res, merr) := service.methods[req.methodName](arg);
        if res.Nil? then (None, merr)
        else
          match s.encode(res)
          case Err(er) => (None, Some(er))
          case Ok(bytes) => (Some(bytes), merr)
  }

  /**
   * Server.Invoke: the response carries the request's id, version, compressor
   * and serializer, no error bytes and no lengths yet; an unknown service gives
   * "service not available" and no data, a known one the stub's data and error.
   */
  function Invoke(stubs: map<seq<byte>, Service>, serializers: map<byte, Serializer>, req: Req.Request)
    : (out: (Resp.Response, Option<Error>))
    requires MethodFound(stubs, req)
    ensures var resp := out.0;
      && resp.requestId == req.requestId && resp.version == req.version
      && resp.compressor == req.compressor && resp.serializer == req.serializer
      && resp.headerLength == 0 && resp.bodyLength == 0 && resp.error.None?
    ensures req.serviceName !in stubs ==> out.0.data.None? && out.1 == Some(ServiceNotAvailable)
    ensures req.serviceName in stubs ==>
      (out.0.data, out.1) == StubInvoke(stubs[req.serviceName], serializers, req)
  {
    var resp := Resp.Response(0, 0, req.requestId, req.version, req.compressor, req.serializer, None, None);
    if req.serviceName !in stubs then (resp, Some(ServiceNotAvailable))
    else
      var (data, err) := StubInvoke(stubs[req.serviceName], serializers, req);
      (resp.(data := data), err)
  }

  /**
   * The response handleConn writes for a request: Invoke's, with the error
   * text (if any) as the Error bytes, and both lengths calculated.
   */
  function Answer(stubs: map<seq<byte>, Service>, serializers: map<byte, Serializer>, req: Req.Request)
    : (resp: Resp.Response)
    requires MethodFound(stubs, req)
    ensures resp.requestId == req.requestId && resp.serializer == req.serializer
    ensures resp.error == Invoke(stubs, serializers, req).1
    ensures resp.data == Invoke(stubs, serializers, req).0.data
    ensures resp.headerLength == (15 + |resp.error.GetOr([])|) % U32_LIMIT
    ensures resp.bodyLength == |resp.data.GetOr([])| % U32_LIMIT
  {
    var (resp, err) := Invoke(stubs, serializers, req);
    var withError := if err.Some? then resp.(error := Some(err.value)) else resp;
    Resp.WithLengths(withError)
  }

  /** handleConn can serve this request frame: it decodes, names a method that exists, and its answer encodes. */
  predicate Servable(stubs: map<seq<byte>, Service>, serializers: map<byte, Serializer>, frame: seq<byte>)
  {
    && Req.ReqDecodable(frame)
    && MethodFound(stubs, Req.ReqOf(frame))
    && Resp.Encodable(Answer(stubs, serializers, Req.ReqOf(frame)))
  }

  /** The response frame handleConn writes for one request frame. */
  function Reply(stubs: map<seq<byte>, Service>, serializers: map<byte, Serializer>, frame: seq<byte>): seq<byte>
    requires Servable(stubs, serializers, frame)
  {
    Resp.RespFrame(Answer(stubs, serializers, Req.ReqOf(frame)))
  }

  /**
   * How a connection loop answers one frame: the frames it can serve and the
   * reply it writes for each.
   */
  datatype Handler = Handler(servable: seq<byte> -> bool, reply: seq<byte> -> seq<byte>)

  /** The handler of a server with these registries: Reply on every servable frame. */
  function ServerHandler(stubs: map<seq<byte>, Service>, serializers: map<byte, Serializer>): (h: Handler)
  {
    Handler(
      frame => Servable(stubs, serializers, frame),
      frame => if Servable(stubs, serializers, frame) then Reply(stubs, serializers, frame) else [])
  }

  /** The server's handler serves exactly the servable frames, with Reply. */
  lemma HandlerReplies(stubs: map<seq<byte>, Service>, serializers: map<byte, Serializer>, frame: seq<byte>)
    requires Servable(stubs, serializers, frame)
    ensures ServerHandler(stubs, serializers).servable(frame)
    ensures ServerHandler(stubs, serializers).reply(frame) == Reply(stubs, serializers, frame)
  {
  }

  /** Every frame the loop reads from this stream can be served. */
  ghost predicate Serves(h: Handler, input: seq<byte>, failure: Option<Error>)
    decreases |input|
  {
    && ReadSafe(input, failure)
    && var m := ReadFrame(input, failure);
    && (m.err.None? ==> h.servable(m.data.value) && Serves(h, m.rest, failure))
  }

  /**
   * What the connection loop does with a stream: the bytes it writes, and the
   * error it ends with, the first read or write error. Every request frame is
   * answered, in order, by exactly one reply.
   */
  ghost function Session(h: Handler, input: seq<byte>, failure: Option<Error>, writeFailure: Option<Error>)
    : (s: (seq<byte>, Error))
    requires Serves(h, input, failure)
    decreases |input|
  {
    var m := ReadFrame(input, failure);
    if m.err.Some? then ([], m.err.value)
    else if writeFailure.Some? then ([], writeFailure.value)
    else
      var next := Session(h, m.rest, failure, writeFailure);
      (h.reply(m.data.value) + next.0, next.1)
  }

  /** A stream holding exactly one servable frame: its reply is written, then the loop ends with EOF. */
  lemma SessionOfOneFrame(h: Handler, f: seq<byte>)
    requires ReadSafe(f, None) && ReadFrame(f, None) == Message(Some(f), None, []) && h.servable(f)
    ensures Serves(h, f, None) && Session(h, f, None, None) == (h.reply(f), EOF)
  {
    assert ReadFrame([], None).err == Some(EOF);
    assert h.reply(f) + [] == h.reply(f);
  }

  /** The loop invariant carried over one served frame. */
  lemma SessionAdvance(h: Handler, input: seq<byte>, failure: Option<Error>, writeFailure: Option<Error>,
                       written: seq<byte>, session: (seq<byte>, Error))
    requires Serves(h, input, failure)
    requires writeFailure.None? && ReadFrame(input, failure).err.None?
    requires var s := Session(h, input, failure, writeFailure);
      written + s.0 == session.0 && s.1 == session.1
    ensures var m := ReadFrame(input, failure);
      && Serves(h, m.rest, failure)
      && |m.rest| < |input|
      && var s := Session(h, m.rest, failure, writeFailure);
      && (written + h.reply(m.data.value)) + s.0 == session.0
      && s.1 == session.1
  {
    var m := ReadFrame(input, failure);
    var next := Session(h, m.rest, failure, writeFailure);
    AppendAssoc(written, h.reply(m.data.value), next.0);
  }

  /**
   * The body of one handleConn round: decode the request, invoke, record the
   * error text, calculate the lengths and encode the response.
   */
  method ServeFrame(stubs: map<seq<byte>, Service>, serializers: map<byte, Serializer>, frame: seq<byte>)
    returns (out: seq<byte>)
    requires Servable(stubs, serializers, frame)
    ensures out == Reply(stubs, serializers, frame)
  {
    var req := Req.DecodeReq(frame);
    var (resp, err) := Invoke(stubs, serializers, req);
    if err.Some? {
      resp := resp.(error := Some(err.value));
    }
    resp := Resp.CalculateHeaderLength(resp);
    resp := Resp.CalculateBodyLength(resp);
    out := Resp.EncodeResp(resp);
  }

  /**
   * The loop of handleConn: read a frame, answer it, write the answer; until
   * a read or a write fails, whose error it returns.
   */
  method ServeConn(h: Handler, conn: Conn) returns (err: Error)
    requires Serves(h, conn.input, conn.failure)
    modifies conn
    ensures var s := Session(h, old(conn.input), old(conn.failure), old(conn.writeFailure));
      conn.output == old(conn.output) + s.0 && err == s.1
  {
    ghost var failure, writeFailure := conn.failure, conn.writeFailure;
    ghost var session := Session(h, conn.input, failure, writeFailure);
    ghost var written: seq<byte> := [];
    while true
      invariant conn.failure == failure && conn.writeFailure == writeFailure
      invariant Serves(h, conn.input, failure)
      invariant conn.output == old(conn.output) + written
      invariant var s := Session(h, conn.input, failure, writeFailure);
        written + s.0 == session.0 && s.1 == session.1
      decreases |conn.input|
    {
      ghost var input := conn.input;
      var reqBs, e := ReadMsg(conn);
      if e.Some? {
        assert written + [] == written;
        return e.value;
      }
      var out := h.reply(reqBs.value);
      var we := conn.Write(out);
      if we.Some? {
        assert written + [] == written;
        return we.value;
      }
      SessionAdvance(h, input, failure, writeFailure, written, session);
      AppendAssoc(old(conn.output), written, out);
      written := written + out;
    }
  }

  class Server {
    var stubs: map<seq<byte>, Service>
    var serializers: map<byte, Serializer>

    /** NewServer: no services, and the JSON serializer under its code. */
    constructor (json: Serializer)
      requires json.code == JsonCode
      ensures stubs == map[] && serializers == map[JsonCode := json]
    {
      stubs := map[];
      serializers := map[];
      new;
      RegisterSerializer(json);
    }

    /** RegisterSerializer: the serializer under its code, replacing any earlier one. */
    method RegisterSerializer(sl: Serializer)
      modifies this
      ensures serializers == old(serializers)[sl.code := sl]
      ensures stubs == old(stubs)
    {
      serializers := serializers[sl.code := sl];
    }

    /**
     * RegisterService: the service under its name, replacing any earlier one.
     * The stub looks serializers up in the server's own map, so serializers
     * registered later serve it too.
     */
    method RegisterService(service: Service)
      modifies this
      ensures stubs == old(stubs)[service.name := service]
      ensures serializers == old(serializers)
    {
      stubs := stubs[service.name := service];
    }

    /**
     * handleConn: the connection loop, answering every request frame with the
     * response this server's registries give it.
     */
    method HandleConn(conn: Conn) returns (err: Error)
      requires Serves(ServerHandler(stubs, serializers), conn.input, conn.failure)
      modifies conn
      ensures var s := Session(ServerHandler(stubs, serializers), old(conn.input), old(conn.failure),
                               old(conn.writeFailure));
        conn.output == old(conn.output) + s.0 && err == s.1
    {
      err := ServeConn(ServerHandler(stubs, serializers), conn);
    }
  }
}
