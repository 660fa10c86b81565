/**
 * The response frame of the binary RPC protocol (micro/rpc2/message/response.go):
 * the fixed 15-byte header, then the raw error bytes up to HeaderLength, then Data.
 */
module Response {
  import opened Wrappers
  import opened Bytes
  import opened Header

  datatype Response = Response(
    headerLength: u32,
    bodyLength: u32,
    requestId: u32,
    version: byte,
    compressor: byte,
    serializer: byte,
    error: Option<seq<byte>>,
    data: Option<seq<byte>>)

  /** Response.CalculateHeaderLength: 15 + uint32(len(Error)), in uint32 arithmetic. */
  function CalculateHeaderLength(r: Response): (r': Response)
    ensures r'.headerLength == (FixedHeaderLength + |r.error.GetOr([])|) % U32_LIMIT
    ensures r' == r.(headerLength := r'.headerLength)
  {
    r.(headerLength := (FixedHeaderLength + |r.error.GetOr([])|) % U32_LIMIT)
  }

  /** Response.CalculateBodyLength: uint32(len(Data)). */
  function CalculateBodyLength(r: Response): (r': Response)
    ensures r'.bodyLength == |r.data.GetOr([])| % U32_LIMIT
    ensures r' == r.(bodyLength := r'.bodyLength)
  {
    r.(bodyLength := |r.data.GetOr([])| % U32_LIMIT)
  }

  /** Both length calculations, as the server performs them before encoding. */
  function WithLengths(r: Response): Response
  {
    CalculateBodyLength(CalculateHeaderLength(r))
  }

  /** len(bs) in EncodeResp: BodyLength + HeaderLength, added in uint32. */
  function FrameSize(r: Response): nat
  {
    (r.bodyLength + r.headerLength) % U32_LIMIT
  }

  /** EncodeResp does not panic: the fixed header and the error bytes fit in the buffer. */
  predicate Encodable(r: Response)
  {
    FixedHeaderLength + |r.error.GetOr([])| <= FrameSize(r)
  }

  /** The bytes EncodeResp returns. */
  function RespFrame(r: Response): (f: seq<byte>)
    requires Encodable(r)
    ensures |f| == FrameSize(r)
  {
    var e := r.error.GetOr([]);
    FixedHeader(r.headerLength, r.bodyLength, r.requestId, r.version, r.compressor, r.serializer)
      + e + Fit(r.data.GetOr([]), FrameSize(r) - FixedHeaderLength - |e|)
  }

  /**
   * EncodeResp: allocates HeaderLength + BodyLength bytes, writes the fixed
   * header, copies Error from offset 15 and Data right after it.
   */
  method EncodeResp(resp: Response) returns (frame: seq<byte>)
    requires Encodable(resp)
    ensures frame == RespFrame(resp)
  {
    var bs := new byte[(resp.bodyLength + resp.headerLength) % U32_LIMIT](_ => 0);
    WriteFixedHeader(bs, resp.headerLength, resp.bodyLength, resp.requestId,
                     resp.version, resp.compressor, resp.serializer);
    ghost var fixed := FixedHeader(resp.headerLength, resp.bodyLength, resp.requestId,
                                   resp.version, resp.compressor, resp.serializer);
    var e := resp.error.GetOr([]);
    Append(bs, 15, fixed, e);
    CopyBody(bs, 15 + |e|, fixed + e, resp.data.GetOr([]));
    frame := bs[..];
  }

  /** DecodeResp does not panic on data. */
  predicate RespDecodable(data: seq<byte>)
  {
    && |data| >= FixedHeaderLength
    && var h := ReadBE32(data[..4]);
    && (h > FixedHeaderLength ==> h <= |data|)
    && (ReadBE32(data[4..8]) != 0 ==> h <= |data|)
  }

  /**
   * DecodeResp: the fixed fields; Error only when HeaderLength > 15, as the
   * bytes [15, HeaderLength); Data only when BodyLength is not zero, as every
   * byte from HeaderLength on.
   */
  function DecodeResp(data: seq<byte>): (r: Response)
    requires RespDecodable(data)
    ensures data[..FixedHeaderLength]
         == FixedHeader(r.headerLength, r.bodyLength, r.requestId, r.version, r.compressor, r.serializer)
    ensures r.error.Some? <==> r.headerLength > FixedHeaderLength
    ensures r.error.Some? ==> r.headerLength <= |data| && data[FixedHeaderLength..r.headerLength] == r.error.value
    ensures r.data.Some? <==> r.bodyLength != 0
    ensures r.data.Some? ==> r.headerLength <= |data| && data[..r.headerLength] + r.data.value == data
  {
    var h := ReadBE32(data[..4]);
    var b := ReadBE32(data[4..8]);
    BE32OfReadBE32(data[..4]);
    BE32OfReadBE32(data[4..8]);
    BE32OfReadBE32(data[8..12]);
    assert data[..FixedHeaderLength] == data[..4] + data[4..8] + data[8..12] + [data[12], data[13], data[14]];
    assert b != 0 ==> data[..h] + data[h..] == data;
    Response(h, b, ReadBE32(data[8..12]), data[12], data[13], data[14],
             if h > FixedHeaderLength then Some(data[FixedHeaderLength..h]) else None,
             if b != 0 then Some(data[h..]) else None)
  }

  /**
   * A response that survives the round trip: Error and Data absent or
   * non-empty (a nil slice is not an empty one) and lengths that fit in uint32.
   */
  predicate WellFormed(r: Response)
  {
    && (r.error.Some? ==> r.error.value != [])
    && (r.data.Some? ==> r.data.value != [])
    && FixedHeaderLength + |r.error.GetOr([])| + |r.data.GetOr([])| < U32_LIMIT
  }

  /**
   * With the lengths calculated (and no uint32 overflow) the frame is exactly
   * HeaderLength + BodyLength bytes: the fixed header, Error from offset 15,
   * and Data right after it.
   */
  lemma FrameLayout(r: Response)
    requires FixedHeaderLength + |r.error.GetOr([])| + |r.data.GetOr([])| < U32_LIMIT
    ensures var r' := WithLengths(r);
      && Encodable(r')
      && r'.headerLength == FixedHeaderLength + |r.error.GetOr([])|
      && r'.bodyLength == |r.data.GetOr([])|
      && |RespFrame(r')| == r'.headerLength + r'.bodyLength
      && RespFrame(r') == FixedHeader(r'.headerLength, r'.bodyLength, r.requestId,
                                      r.version, r.compressor, r.serializer)
                          + r.error.GetOr([]) + r.data.GetOr([])
  {
  }

  /** Decoding the layout the encoder writes: the fixed fields, then Error and Data where the lengths put them. */
  lemma DecodeLayout(h: u32, b: u32, id: u32, v: byte, c: byte, s: byte, e: seq<byte>, d: seq<byte>)
    requires h == FixedHeaderLength + |e| && b == |d|
    ensures var f := FixedHeader(h, b, id, v, c, s) + (e + d);
      && RespDecodable(f)
      && DecodeResp(f) == Response(h, b, id, v, c, s,
                                   if h > FixedHeaderLength then Some(e) else None,
                                   if b != 0 then Some(d) else None)
  {
    var f := FixedHeader(h, b, id, v, c, s) + (e + d);
    FixedHeaderFields(h, b, id, v, c, s, e + d);
    assert f[FixedHeaderLength..] == e + d;
    assert f[FixedHeaderLength..h] == e;
    assert f[h..] == d;
  }

  /**
   * The round trip the codec promises: a well-formed response with its
   * lengths calculated decodes from its own encoding to itself, whether it
   * carries both Error and Data, only one of them, and whatever bytes they hold.
   */
  lemma ResponseRoundTrip(r: Response)
    requires WellFormed(r)
    ensures Encodable(WithLengths(r))
    ensures RespDecodable(RespFrame(WithLengths(r)))
    ensures DecodeResp(RespFrame(WithLengths(r))) == WithLengths(r)
  {
    FrameLayout(r);
    var r' := WithLengths(r);
    var e, d := r.error.GetOr([]), r.data.GetOr([]);
    var fixed := FixedHeader(r'.headerLength, r'.bodyLength, r.requestId, r.version, r.compressor, r.serializer);
    assert RespFrame(r') == fixed + (e + d) by {
      assert RespFrame(r') == fixed + e + d;
    }
    DecodeLayout(r'.headerLength, r'.bodyLength, r.requestId, r.version, r.compressor, r.serializer, e, d);
    assert (if r'.headerLength > FixedHeaderLength then Some(e) else None) == r.error;
    assert (if r'.bodyLength != 0 then Some(d) else None) == r.data;
    assert r' == Response(r'.headerLength, r'.bodyLength, r.requestId, r.version, r.compressor, r.serializer,
                          r.error, r.data);
  }
}
