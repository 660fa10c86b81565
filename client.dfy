/**
 * The RPC client (micro/rpc3/client.go): the stubs InitService binds to the
 * function fields of a service struct, the request each stub builds, and the
 * transport underneath, Client.Invoke and Client.Send.
 */
module Client {
  import opened Wrappers
  import opened Bytes
  import opened Serialize
  import opened Rpc3Tcp
  import Req = Request
  import Resp = Response

  const ErrServiceNil: Error := Ascii("rpc: nil service is not supported")
  const ErrServiceWrongType: Error := Ascii("rpc: only first-level pointer ") + Ascii("to struct is supported")
  const ErrOneway: Error := Ascii("micro: oneway")

  /** The meta entry a one-way call carries. */
  const OnewayKey: seq<byte> := Ascii("one-way")
  const OnewayValue: seq<byte> := Ascii("true")

  /**
   * The connection Send works on: the error pool.Get reports, if any; the
   * error Write reports, if any; and, for the bytes written, the stream the
   * connection then delivers and the error its reads report.
   */
  datatype Link = Link(
    get: Option<Error>,
    writeFailure: Option<Error>,
    answer: seq<byte> -> (seq<byte>, Option<Error>))

  /** What the stub hands the proxy: the call's one-way flag and the request. */
  type Proxy = (bool, Req.Request) --> Result<Resp.Response, Error>

  /**
   * The closure reflect.MakeFunc binds to a settable field: the service name,
   * the field's name, a zero result, the client's serializer and the proxy.
   */
  datatype Stub = Stub(serviceName: seq<byte>, methodName: seq<byte>, zero: Value, serializer: Serializer, proxy: Proxy)

  /** A function field of a service struct: nil, or a stub. */
  datatype Func = NilFunc | Remote(stub: Stub)

  /** One field of the struct: its name, whether it can be set, its result type's zero value, its value. */
  datatype Field = Field(name: seq<byte>, settable: bool, zero: Value, fn: Func)

  /** A struct a service pointer points to; name is what its Name method returns. */
  class ServiceStruct {
    const name: seq<byte>
    var fields: seq<Field>

    constructor (name: seq<byte>, fields: seq<Field>)
      ensures this.name == name && this.fields == fields
    {
      this.name := name;
      this.fields := fields;
    }
  }

  /** The service value setFuncField is given: nil, not a pointer to a struct, or a pointer to a struct. */
  datatype ServiceRef = NilService | NotStructPointer | StructPointer(obj: ServiceStruct)

  /** The request a stub sends: names, the encoded argument, the serializer code, the one-way meta, and both lengths. */
  function StubRequest(stub: Stub, oneway: bool, arg: seq<byte>): (req: Req.Request)
    ensures req.serviceName == stub.serviceName && req.methodName == stub.methodName
    ensures req.data == Some(arg) && req.serializer == stub.serializer.code
    ensures req.meta == if oneway then Some([(OnewayKey, OnewayValue)]) else None
    ensures req.requestId == 0 && req.version == 0 && req.compressor == 0
    ensures req.headerLength == Req.HeaderSize(req) % U32_LIMIT
    ensures req.bodyLength == |arg| % U32_LIMIT
  {
    var meta := if oneway then Some([(OnewayKey, OnewayValue)]) else None;
    var req := Req.Request(0, 0, 0, 0, 0, stub.serializer.code, stub.serviceName, stub.methodName, meta, Some(arg));
    Req.CalculateBodyLength(Req.CalculateHeaderLength(req))
  }

  /** The proxy accepts the request the stub would send for arg. */
  ghost predicate StubCallable(stub: Stub, oneway: bool, arg: Value)
  {
    var enc := stub.serializer.encode(arg);
    enc.Ok? ==> stub.proxy.requires(oneway, StubRequest(stub, oneway, enc.value))
  }

  /**
   * Calling a stub: an encode failure or a proxy error gives the zero result
   * and that error; otherwise a non-empty Error becomes the returned error, a
   * non-empty Data is decoded into the result, and a decode failure replaces
   * the returned error.
   */
  function CallStub(stub: Stub, oneway: bool, arg: Value): (out: (Value, Option<Error>))
    requires StubCallable(stub, oneway, arg)
    ensures stub.serializer.encode(arg).Err? ==> out == (stub.zero, Some(stub.serializer.encode(arg).error))
    ensures stub.serializer.encode(arg).Ok? ==>
      var r := stub.proxy(oneway, StubRequest(stub, oneway, stub.serializer.encode(arg).value));
      && (r.Err? ==> out == (stub.zero, Some(r.error)))
      && (r.Ok? ==>
            var e, d := r.value.error.GetOr([]), r.value.data.GetOr([]);
            && (d == [] ==> out == (stub.zero, if e == [] then None else Some(e)))
            && (d != [] && stub.serializer.decode(d).Err? ==> out == (stub.zero, Some(stub.serializer.decode(d).error)))
            && (d != [] && stub.serializer.decode(d).Ok? ==>
                  out == (stub.serializer.decode(d).value, if e == [] then None else Some(e))))
  {
    match stub.serializer.encode(arg)
    case Err(e) => (stub.zero, Some(e))
    case Ok(reqArg) =>
      match stub.proxy(oneway, StubRequest(stub, oneway, reqArg))
      case Err(e) => (stub.zero, Some(e))
      case Ok(resp) =>
        var retErr := if |resp.error.GetOr([])| > 0 then Some(resp.error.value) else None;
        if |resp.data.GetOr([])| > 0 then
          match stub.serializer.decode(resp.data.value)
          case Err(e) => (stub.zero, Some(e))
          case Ok(v) => (v, retErr)
        else (stub.zero, retErr)
  }

  /**
   * setFuncField: a nil service and anything but a pointer to a struct are
   * refused; otherwise every settable field gets a stub for that field, and
   * the other fields keep their values.
   */
  method SetFuncField(service: ServiceRef, proxy: Proxy, s: Serializer) returns (err: Option<Error>)
    modifies if service.StructPointer? then {service.obj} else {}
    ensures service.NilService? ==> err == Some(ErrServiceNil)
    ensures service.NotStructPointer? ==> err == Some(ErrServiceWrongType)
    ensures service.StructPointer? ==>
      var obj := service.obj;
      && err.None?
      && |obj.fields| == |old(obj.fields)|
      && forall i | 0 <= i < |obj.fields| ::
           obj.fields[i] ==
             if old(obj.fields[i]).settable
             then old(obj.fields[i]).(fn := Remote(Stub(obj.name, old(obj.fields[i]).name, old(obj.fields[i]).zero, s, proxy)))
             else old(obj.fields[i])
  {
    if service.NilService? {
      return Some(ErrServiceNil);
    }
    if service.NotStructPointer? {
      return Some(ErrServiceWrongType);
    }
    var obj := service.obj;
    ghost var before := obj.fields;
    for i := 0 to |obj.fields|
      invariant |obj.fields| == |before|
      invariant forall j | 0 <= j < |obj.fields| ::
        obj.fields[j] ==
          if j < i && before[j].settable
          then before[j].(fn := Remote(Stub(obj.name, before[j].name, before[j].zero, s, proxy)))
          else before[j]
    {
      var f := obj.fields[i];
      if f.settable {
        obj.fields := obj.fields[i := f.(fn := Remote(Stub(obj.name, f.name, f.zero, s, proxy)))];
      }
    }
    err := None;
  }

  /** The only client option: ClientWithSerializer. */
  datatype ClientOption = WithSerializer(serializer: Serializer)

  class Client {
    /** What the client's pool hands out for every call (the pool itself is not modelled). */
    const link: Link
    var serializer: Serializer

    constructor (link: Link, serializer: Serializer)
      ensures this.link == link && this.serializer == serializer
    {
      this.link := link;
      this.serializer := serializer;
    }

    /**
     * NewClient: a pool error is returned as is; otherwise the client starts
     * with JSON and the options are applied in order, so the last serializer
     * option wins.
     */
    static method NewClient(pool: Result<Link, Error>, json: Serializer, opts: seq<ClientOption>)
      returns (c: Client?, err: Option<Error>)
      requires json.code == JsonCode
      ensures pool.Err? ==> c == null && err == Some(pool.error)
      ensures pool.Ok? ==>
        && c != null && fresh(c) && err.None? && c.link == pool.value
        && c.serializer == if opts == [] then json else opts[|opts| - 1].serializer
    {
      if pool.Err? {
        return null, Some(pool.error);
      }
      c := new Client(pool.value, json);
      for i := 0 to |opts|
        invariant c.link == pool.value
        invariant c.serializer == if i == 0 then json else opts[i - 1].serializer
      {
        c.serializer := opts[i].serializer;
      }
      err := None;
    }

    /** Send does not panic: ReadMsg is only reached on a stream whose prefix announces at least itself. */
    predicate SendSafe(oneway: bool, data: seq<byte>)
    {
      link.get.Some? || link.writeFailure.Some? || oneway || ReadSafe(link.answer(data).0, link.answer(data).1)
    }

    /**
     * Send: the pool error, the write error, or, for a one-way call,
     * "micro: oneway" right after the write; otherwise whatever ReadMsg
     * gives on the connection.
     */
    function Send(oneway: bool, data: seq<byte>): (out: (Option<seq<byte>>, Option<Error>))
      requires SendSafe(oneway, data)
      ensures link.get.Some? ==> out == (None, link.get)
      ensures link.get.None? && link.writeFailure.Some? ==> out == (None, link.writeFailure)
      ensures link.get.None? && link.writeFailure.None? && oneway ==> out == (None, Some(ErrOneway))
      ensures link.get.None? && link.writeFailure.None? && !oneway ==>
        var m := ReadFrame(link.answer(data).0, link.answer(data).1);
        out == (m.data, m.err)
      ensures out.1.None? ==> out.0.Some?
    {
      if link.get.Some? then (None, link.get)
      else if link.writeFailure.Some? then (None, link.writeFailure)
      else if oneway then (None, Some(ErrOneway))
      else
        var (input, failure) := link.answer(data);
        var m := ReadFrame(input, failure);
        (m.data, m.err)
    }

    /** Invoke does not panic: the request encodes and what Send reads decodes. */
    predicate InvokeSafe(oneway: bool, req: Req.Request)
    {
      && Req.Encodable(req)
      && SendSafe(oneway, Req.ReqFrame(req))
      && var sent := Send(oneway, Req.ReqFrame(req));
      && (sent.1.None? ==> Resp.RespDecodable(sent.0.value))
    }

    /** Client.Invoke: encode the request, send it, decode what comes back; a Send error is returned as is. */
    function Invoke(oneway: bool, req: Req.Request): (out: Result<Resp.Response, Error>)
      requires InvokeSafe(oneway, req)
      ensures var sent := Send(oneway, Req.ReqFrame(req));
        && (sent.1.Some? <==> out.Err?)
        && (sent.1.Some? ==> out.error == sent.1.value)
        && (sent.1.None? ==> out.value == Resp.DecodeResp(sent.0.value))
    {
      var (bs, err) := Send(oneway, Req.ReqFrame(req));
      if err.Some? then Err(err.value) else Ok(Resp.DecodeResp(bs.value))
    }

    /** The client as the Proxy its stubs call. */
    function AsProxy(): Proxy
    {
      (oneway, req) requires InvokeSafe(oneway, req) => Invoke(oneway, req)
    }

    /** InitService: setFuncField with this client as the proxy and its serializer. */
    method InitService(service: ServiceRef) returns (err: Option<Error>)
      modifies if service.StructPointer? then {service.obj} else {}
      ensures service.NilService? ==> err == Some(ErrServiceNil)
      ensures service.NotStructPointer? ==> err == Some(ErrServiceWrongType)
      ensures service.StructPointer? ==>
        var obj := service.obj;
        && err.None?
        && |obj.fields| == |old(obj.fields)|
        && forall i | 0 <= i < |obj.fields| ::
             obj.fields[i] ==
               if old(obj.fields[i]).settable
               then old(obj.fields[i]).(fn := Remote(Stub(obj.name, old(obj.fields[i]).name, old(obj.fields[i]).zero,
                                                          serializer, AsProxy())))
               else old(obj.fields[i])
    {
      err := SetFuncField(service, AsProxy(), serializer);
    }
  }

  /** A one-way call ends with "micro: oneway" once the request is written, whatever the peer would answer. */
  lemma OnewayCallFails(c: Client, stub: Stub, arg: Value)
    requires stub.proxy == c.AsProxy()
    requires c.link.get.None? && c.link.writeFailure.None?
    requires stub.serializer.encode(arg).Ok?
    requires Req.Encodable(StubRequest(stub, true, stub.serializer.encode(arg).value))
    ensures StubCallable(stub, true, arg)
    ensures CallStub(stub, true, arg) == (stub.zero, Some(ErrOneway))
  {
    var req := StubRequest(stub, true, stub.serializer.encode(arg).value);
    assert c.InvokeSafe(true, req);
    assert c.Invoke(true, req) == Err(ErrOneway);
  }
}
