/**
 * The fixed 15-byte header shared by requests and responses
 * (micro/rpc2/message/request.go and response.go): HeaderLength,
 * BodyLength and RequestID as big-endian u32, then Version, Compressor and
 * Serializer as single bytes.
 */
module Header {
  import opened Bytes

  /** Length of the fixed part of the header. */
  const FixedHeaderLength: nat := 15

  function FixedHeader(headerLength: u32, bodyLength: u32, requestId: u32,
                       version: byte, compressor: byte, serializer: byte): (s: seq<byte>)
    ensures |s| == FixedHeaderLength
  {
    BE32(headerLength) + BE32(bodyLength) + BE32(requestId) + [version, compressor, serializer]
  }

  /** The six fields can be read back from their fixed offsets. */
  lemma FixedHeaderFields(headerLength: u32, bodyLength: u32, requestId: u32,
                          version: byte, compressor: byte, serializer: byte, rest: seq<byte>)
    ensures var f := FixedHeader(headerLength, bodyLength, requestId, version, compressor, serializer) + rest;
      && ReadBE32(f[..4]) == headerLength
      && ReadBE32(f[4..8]) == bodyLength
      && ReadBE32(f[8..12]) == requestId
      && f[12] == version && f[13] == compressor && f[14] == serializer
      && f[FixedHeaderLength..] == rest
  {
    var f := FixedHeader(headerLength, bodyLength, requestId, version, compressor, serializer) + rest;
    assert f[..4] == BE32(headerLength);
    assert f[4..8] == BE32(bodyLength);
    assert f[8..12] == BE32(requestId);
    ReadBE32OfBE32(headerLength);
    ReadBE32OfBE32(bodyLength);
    ReadBE32OfBE32(requestId);
  }

  /** The first n bytes of d, padded with zeros when d is shorter (Go's copy into a zeroed slice). */
  function Fit(d: seq<byte>, n: nat): (s: seq<byte>)
    ensures |s| == n
  {
    if |d| >= n then d[..n] else d + Zeros(n - |d|)
  }

  /** The PutUint32 calls and the stores into bs[12], bs[13], bs[14] at the start of both encoders. */
  method WriteFixedHeader(bs: array<byte>, headerLength: u32, bodyLength: u32, requestId: u32,
                          version: byte, compressor: byte, serializer: byte)
    requires bs.Length >= FixedHeaderLength
    requires bs[..] == Zeros(bs.Length)
    modifies bs
    ensures bs[..] == FixedHeader(headerLength, bodyLength, requestId, version, compressor, serializer)
                      + Zeros(bs.Length - FixedHeaderLength)
  {
    ghost var w1 := BE32(headerLength);
    ghost var w2 := w1 + BE32(bodyLength);
    ghost var w3 := w2 + BE32(requestId);
    Append(bs, 0, [], BE32(headerLength));
    assert [] + w1 == w1;
    Append(bs, 4, w1, BE32(bodyLength));
    Append(bs, 8, w2, BE32(requestId));
    Append(bs, 12, w3, [version, compressor, serializer]);
    assert w3 + [version, compressor, serializer] == FixedHeader(headerLength, bodyLength, requestId, version, compressor, serializer);
  }

  /** The final copy(cur, Data) of both encoders: Data truncated or zero-padded to the room left. */
  method CopyBody(bs: array<byte>, at: nat, ghost written: seq<byte>, data: seq<byte>)
    requires at == |written| <= bs.Length
    requires bs[..] == written + Zeros(bs.Length - at)
    modifies bs
    ensures bs[..] == written + Fit(data, bs.Length - at)
  {
    var n := Copy(bs, at, data);
    assert old(bs[at + n..]) == Zeros(bs.Length - at - n);
  }
}
