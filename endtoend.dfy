/**
 * A client stub calling a server through one connection: the request frame
 * the client writes is the frame the server reads, the response frame the
 * server writes is the frame the client reads, and the stub hands back what
 * the service method returned (micro/rpc3/client_e2e_test.go exercises these
 * cases against a live server).
 */
module EndToEnd {
  import opened Wrappers
  import opened Bytes
  import opened Serialize
  import opened Rpc3Tcp
  import Header
  import Req = Request
  import Resp = Response
  import S = Server
  import C = Client

  /** Reading a stream that starts with EncodeReq's frame yields exactly that frame. */
  lemma RequestFrameIsRead(r: Req.Request, rest: seq<byte>)
    requires Req.WellFormed(r)
    ensures Req.Encodable(Req.WithLengths(r))
    ensures var f := Req.ReqFrame(Req.WithLengths(r));
      ReadSafe(f + rest, None) && ReadFrame(f + rest, None) == Message(Some(f), None, rest)
  {
    Req.FrameLayout(r);
    var w := Req.WithLengths(r);
    var f := Req.ReqFrame(w);
    var vh := Req.VarHeader(w) + Header.Fit(w.data.GetOr([]), Req.FrameSize(w) - 15 - |Req.VarHeader(w)|);
    assert f == Header.FixedHeader(w.headerLength, w.bodyLength, w.requestId, w.version, w.compressor, w.serializer) + vh;
    AnnouncedLength(f, w.headerLength, w.bodyLength, w.requestId, w.version, w.compressor, w.serializer, vh);
    ReadsAnnouncedFrame(f, rest);
  }

  /** Reading what EncodeResp produced yields exactly that frame. */
  lemma ResponseFrameIsRead(r: Resp.Response, rest: seq<byte>)
    requires Resp.Encodable(r)
    ensures var f := Resp.RespFrame(r);
      ReadSafe(f + rest, None) && ReadFrame(f + rest, None) == Message(Some(f), None, rest)
  {
    var f := Resp.RespFrame(r);
    var e := r.error.GetOr([]);
    var tail := e + Header.Fit(r.data.GetOr([]), Resp.FrameSize(r) - 15 - |e|);
    assert f == Header.FixedHeader(r.headerLength, r.bodyLength, r.requestId, r.version, r.compressor, r.serializer) + tail;
    AnnouncedLength(f, r.headerLength, r.bodyLength, r.requestId, r.version, r.compressor, r.serializer, tail);
    ReadsAnnouncedFrame(f, rest);
  }

  /** A stream that holds only EncodeReq's frame is read whole, with nothing left. */
  lemma RequestFrameIsReadAlone(r: Req.Request)
    requires Req.WellFormed(r)
    ensures Req.Encodable(Req.WithLengths(r))
    ensures var f := Req.ReqFrame(Req.WithLengths(r));
      ReadSafe(f, None) && ReadFrame(f, None) == Message(Some(f), None, [])
  {
    RequestFrameIsRead(r, []);
    assert Req.ReqFrame(Req.WithLengths(r)) + [] == Req.ReqFrame(Req.WithLengths(r));
  }

  /** A stream that holds only EncodeResp's frame is read whole, with nothing left. */
  lemma ResponseFrameIsReadAlone(r: Resp.Response)
    requires Resp.Encodable(r)
    ensures var f := Resp.RespFrame(r);
      ReadSafe(f, None) && ReadFrame(f, None) == Message(Some(f), None, [])
  {
    ResponseFrameIsRead(r, []);
    assert Resp.RespFrame(r) + [] == Resp.RespFrame(r);
  }

  /** A frame of length (H + B) mod 2^32 that starts with a fixed header holding H and B announces its own length. */
  lemma AnnouncedLength(f: seq<byte>, h: u32, b: u32, id: u32, v: byte, c: byte, s: byte, tail: seq<byte>)
    requires f == Header.FixedHeader(h, b, id, v, c, s) + tail
    requires |f| == (b + h) % U32_LIMIT
    ensures |f| >= NumOfLengthBytes && FrameLength(f[..NumOfLengthBytes]) == |f|
  {
    Header.FixedHeaderFields(h, b, id, v, c, s, tail);
    var prefix := f[..NumOfLengthBytes];
    assert prefix[..4] == f[..4] && prefix[4..] == f[4..8];
  }

  /**
   * The connection of a client to a server with these registries: nothing
   * fails, and what comes back for a request frame is the server handler's
   * reply to that one frame. ServerAnswersOneFrame shows that this is what
   * the server's connection loop (Session) writes on a connection holding
   * exactly that frame.
   */
  function Loopback(stubs: map<seq<byte>, S.Service>, serializers: map<byte, Serializer>): (l: C.Link)
    ensures l.get.None? && l.writeFailure.None?
  {
    C.Link(None, None, data => (S.ServerHandler(stubs, serializers).reply(data), None))
  }

  /** A connection that holds one request frame: the server writes its reply and then ends with EOF. */
  lemma ServerAnswersOneFrame(stubs: map<seq<byte>, S.Service>, serializers: map<byte, Serializer>, r: Req.Request)
    requires Req.WellFormed(r) && Req.Encodable(Req.WithLengths(r))
    requires S.Servable(stubs, serializers, Req.ReqFrame(Req.WithLengths(r)))
    ensures var h, f := S.ServerHandler(stubs, serializers), Req.ReqFrame(Req.WithLengths(r));
      && S.Serves(h, f, None)
      && S.Session(h, f, None, None) == (S.Reply(stubs, serializers, f), Conn.EOF)
  {
    var h, f := S.ServerHandler(stubs, serializers), Req.ReqFrame(Req.WithLengths(r));
    RequestFrameIsReadAlone(r);
    S.HandlerReplies(stubs, serializers, f);
    S.SessionOfOneFrame(h, f);
  }

  /** The response fields the server answers with already carry the lengths CalculateHeaderLength and CalculateBodyLength give. */
  lemma AnswerHasLengths(stubs: map<seq<byte>, S.Service>, serializers: map<byte, Serializer>, req: Req.Request)
    requires S.MethodFound(stubs, req)
    ensures Resp.WithLengths(S.Answer(stubs, serializers, req)) == S.Answer(stubs, serializers, req)
  {
  }

  /**
   * For a well-formed request whose answer survives the wire, the server can
   * serve the request frame and replies with the encoded answer.
   */
  lemma ServerReplies(stubs: map<seq<byte>, S.Service>, serializers: map<byte, Serializer>, r: Req.Request)
    requires Req.WellFormed(r) && S.MethodFound(stubs, Req.WithLengths(r))
    requires Resp.WellFormed(S.Answer(stubs, serializers, Req.WithLengths(r)))
    ensures Req.Encodable(Req.WithLengths(r))
    ensures var a := S.Answer(stubs, serializers, Req.WithLengths(r));
      && S.Servable(stubs, serializers, Req.ReqFrame(Req.WithLengths(r)))
      && Resp.Encodable(a)
      && S.Reply(stubs, serializers, Req.ReqFrame(Req.WithLengths(r))) == Resp.RespFrame(a)
      && Resp.RespDecodable(Resp.RespFrame(a)) && Resp.DecodeResp(Resp.RespFrame(a)) == a
  {
    Req.RequestRoundTrip(r);
    var a := S.Answer(stubs, serializers, Req.WithLengths(r));
    Resp.ResponseRoundTrip(a);
    AnswerHasLengths(stubs, serializers, Req.WithLengths(r));
  }

  /**
   * Client.Invoke over a connection to that server returns exactly the
   * response the server computed: the frame goes out, is read and answered,
   * and the answer is read back and decoded.
   */
  lemma InvokeReturnsAnswer(c: C.Client, stubs: map<seq<byte>, S.Service>, serializers: map<byte, Serializer>,
                            r: Req.Request)
    requires c.link == Loopback(stubs, serializers)
    requires Req.WellFormed(r) && S.MethodFound(stubs, Req.WithLengths(r))
    requires Resp.WellFormed(S.Answer(stubs, serializers, Req.WithLengths(r)))
    ensures c.InvokeSafe(false, Req.WithLengths(r))
    ensures c.Invoke(false, Req.WithLengths(r)) == Ok(S.Answer(stubs, serializers, Req.WithLengths(r)))
  {
    var w := Req.WithLengths(r);
    var a := S.Answer(stubs, serializers, w);
    ServerReplies(stubs, serializers, r);
    var g, f := Req.ReqFrame(w), Resp.RespFrame(a);
    LoopbackAnswers(stubs, serializers, g);
    ResponseFrameIsReadAlone(a);
    InvokeOfFrames(c, w, f, a);
  }

  /** Invoke over a working connection that answers the request frame with one whole, decodable frame returns its decoding. */
  lemma InvokeOfFrames(c: C.Client, w: Req.Request, f: seq<byte>, a: Resp.Response)
    requires Req.Encodable(w)
    requires c.link.get.None? && c.link.writeFailure.None? && c.link.answer(Req.ReqFrame(w)) == (f, None)
    requires ReadSafe(f, None) && ReadFrame(f, None) == Message(Some(f), None, [])
    requires Resp.RespDecodable(f) && Resp.DecodeResp(f) == a
    ensures c.InvokeSafe(false, w) && c.Invoke(false, w) == Ok(a)
  {
    SendReturns(c, Req.ReqFrame(w), f);
  }

  /** The loopback connection hands back the server's reply to a servable frame. */
  lemma LoopbackAnswers(stubs: map<seq<byte>, S.Service>, serializers: map<byte, Serializer>, g: seq<byte>)
    requires S.Servable(stubs, serializers, g)
    ensures Loopback(stubs, serializers).answer(g) == (S.Reply(stubs, serializers, g), None)
  {
    assert Loopback(stubs, serializers).answer(g) == (S.ServerHandler(stubs, serializers).reply(g), None);
    S.HandlerReplies(stubs, serializers, g);
  }

  /** Send over a working connection that answers with one whole frame returns that frame. */
  lemma SendReturns(c: C.Client, g: seq<byte>, f: seq<byte>)
    requires c.link.get.None? && c.link.writeFailure.None? && c.link.answer(g) == (f, None)
    requires ReadSafe(f, None) && ReadFrame(f, None) == Message(Some(f), None, [])
    ensures c.SendSafe(false, g) && c.Send(false, g) == (Some(f), None)
  {
  }

  /** The request a stub sends is the one it builds, with both lengths calculated. */
  function StubBase(stub: C.Stub, arg: seq<byte>): (r: Req.Request)
    ensures Req.WithLengths(r) == C.StubRequest(stub, false, arg)
  {
    Req.Request(0, 0, 0, 0, 0, stub.serializer.code, stub.serviceName, stub.methodName, None, Some(arg))
  }

  /**
   * A stub of client c, bound by InitService, calling a server with these
   * registries: the argument encodes to a request that survives the wire, the
   * method it names exists if the service does, and the answer survives the wire.
   */
  ghost predicate Wired(c: C.Client, stub: C.Stub, stubs: map<seq<byte>, S.Service>,
                        serializers: map<byte, Serializer>, arg: Value)
  {
    && stub.proxy == c.AsProxy()
    && c.link == Loopback(stubs, serializers)
    && stub.serializer.encode(arg).Ok?
    && var r := StubBase(stub, stub.serializer.encode(arg).value);
    && Req.WellFormed(r)
    && S.MethodFound(stubs, Req.WithLengths(r))
    && Resp.WellFormed(S.Answer(stubs, serializers, Req.WithLengths(r)))
  }

  /** A wired stub gets the server's answer from its proxy. */
  lemma StubGetsAnswer(c: C.Client, stub: C.Stub, stubs: map<seq<byte>, S.Service>,
                       serializers: map<byte, Serializer>, arg: Value)
    requires Wired(c, stub, stubs, serializers, arg)
    ensures C.StubCallable(stub, false, arg)
    ensures var req := C.StubRequest(stub, false, stub.serializer.encode(arg).value);
      stub.proxy(false, req) == Ok(S.Answer(stubs, serializers, req))
  {
    var r := StubBase(stub, stub.serializer.encode(arg).value);
    InvokeReturnsAnswer(c, stubs, serializers, r);
  }

  /**
   * A call that reaches its method hands back the method's result and error:
   * a nil result arrives as the zero value, a result that does not encode as
   * the encoding error, and otherwise the result together with the method's
   * error, both kept.
   */
  lemma CallReturnsMethodResult(c: C.Client, stub: C.Stub, stubs: map<seq<byte>, S.Service>,
                                serializers: map<byte, Serializer>, arg: Value)
    requires Wired(c, stub, stubs, serializers, arg)
    requires stub.serviceName in stubs
    requires stub.serializer.code in serializers && serializers[stub.serializer.code] == stub.serializer
    requires RoundTrips(stub.serializer)
    ensures C.StubCallable(stub, false, arg)
    ensures var (res, merr) := stubs[stub.serviceName].methods[stub.methodName](arg);
      var out := C.CallStub(stub, false, arg);
      && (res.Nil? ==> out == (stub.zero, merr))
      && (!res.Nil? && stub.serializer.encode(res).Err? ==> out == (stub.zero, Some(stub.serializer.encode(res).error)))
      && (!res.Nil? && stub.serializer.encode(res).Ok? ==> out == (res, merr))
  {
    StubGetsAnswer(c, stub, stubs, serializers, arg);
    var s := stub.serializer;
    var req := C.StubRequest(stub, false, s.encode(arg).value);
    assert s.decode(req.data.GetOr([])) == Ok(arg);
    var a := S.Answer(stubs, serializers, req);
    var (res, merr) := stubs[stub.serviceName].methods[stub.methodName](arg);
    assert a.error == merr || a.data.None?;
    if !res.Nil? && s.encode(res).Ok? {
      assert a.data == Some(s.encode(res).value);
      assert s.decode(s.encode(res).value) == Ok(res);
    }
  }

  /** A call naming a service the server has not registered fails with "service not available". */
  lemma CallToUnknownService(c: C.Client, stub: C.Stub, stubs: map<seq<byte>, S.Service>,
                             serializers: map<byte, Serializer>, arg: Value)
    requires stub.proxy == c.AsProxy() && c.link == Loopback(stubs, serializers)
    requires stub.serializer.encode(arg).Ok? && Req.WellFormed(StubBase(stub, stub.serializer.encode(arg).value))
    requires stub.serviceName !in stubs
    ensures C.StubCallable(stub, false, arg)
    ensures C.CallStub(stub, false, arg) == (stub.zero, Some(S.ServiceNotAvailable))
  {
    var req := C.StubRequest(stub, false, stub.serializer.encode(arg).value);
    var a := S.Answer(stubs, serializers, req);
    assert a.error == Some(S.ServiceNotAvailable) && a.data.None?;
    StubGetsAnswer(c, stub, stubs, serializers, arg);
  }

  /** A call with a serializer code the server has not registered fails with the error naming that code. */
  lemma CallWithUnsupportedSerializer(c: C.Client, stub: C.Stub, stubs: map<seq<byte>, S.Service>,
                                      serializers: map<byte, Serializer>, arg: Value)
    requires stub.proxy == c.AsProxy() && c.link == Loopback(stubs, serializers)
    requires stub.serializer.encode(arg).Ok? && Req.WellFormed(StubBase(stub, stub.serializer.encode(arg).value))
    requires stub.serviceName in stubs && stub.methodName in stubs[stub.serviceName].methods
    requires stub.serializer.code !in serializers
    ensures C.StubCallable(stub, false, arg)
    ensures C.CallStub(stub, false, arg) == (stub.zero, Some(S.NotSupportedSerializer(stub.serializer.code)))
  {
    var req := C.StubRequest(stub, false, stub.serializer.encode(arg).value);
    var a := S.Answer(stubs, serializers, req);
    assert a.error == Some(S.NotSupportedSerializer(stub.serializer.code)) && a.data.None?;
    StubGetsAnswer(c, stub, stubs, serializers, arg);
  }
}
