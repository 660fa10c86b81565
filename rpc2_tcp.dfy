/**
 * The length-prefixed framing of the older RPC layer (micro/rpc2/tcp.go): an
 * eight-byte big-endian length, then exactly that many bytes of payload.
 */
module Rpc2Tcp {
  import opened Wrappers
  import opened Bytes
  import opened Conn

  const NumOfLengthBytes: nat := 8

  /** EncodeMsg: the payload behind its uint64 length. */
  function EncodeMsg(data: seq<byte>): (res: seq<byte>)
    requires |data| < U64_LIMIT
    ensures |res| == NumOfLengthBytes + |data|
    ensures ReadBE64(res[..NumOfLengthBytes]) == |data|
    ensures res[NumOfLengthBytes..] == data
  {
    ReadBE64OfBE64(|data|);
    BE64(|data|) + data
  }

  /** What ReadMsg returns, and the bytes it leaves on the connection. */
  datatype Message = Message(data: Option<seq<byte>>, err: Option<Error>, rest: seq<byte>)

  /**
   * ReadMsg on a connection holding input: no data when the length cannot be
   * read; otherwise a buffer of the announced length, filled from the
   * connection, with EOF when the stream ends short of it.
   */
  function ReadFrame(input: seq<byte>, failure: Option<Error>): (m: Message)
    ensures m.data.None? <==> failure.Some? || |input| < NumOfLengthBytes
    ensures m.data.None? ==> m.err.Some?
    ensures m.data.Some? ==> |m.data.value| == ReadBE64(input[..NumOfLengthBytes])
    ensures m.err.None? <==>
      failure.None? && |input| >= NumOfLengthBytes && |input| >= NumOfLengthBytes + ReadBE64(input[..NumOfLengthBytes])
    ensures m.err.None? ==> m.data.Some? && input == input[..NumOfLengthBytes] + m.data.value + m.rest
  {
    var p := Deliver(input, failure, NumOfLengthBytes);
    if p.err.Some? then Message(None, p.err, p.rest)
    else
      var length := ReadBE64(p.got);
      var q := Deliver(p.rest, failure, length);
      Message(Some(q.got + Zeros(length - |q.got|)), q.err, q.rest)
  }

  /** ReadMsg: the length into its own buffer, then a buffer of that length read in one call. */
  method ReadMsg(conn: Conn) returns (data: Option<seq<byte>>, err: Option<Error>)
    modifies conn
    ensures Message(data, err, conn.input) == ReadFrame(old(conn.input), old(conn.failure))
    ensures conn.failure == old(conn.failure) && conn.writeFailure == old(conn.writeFailure)
    ensures conn.output == old(conn.output)
  {
    ghost var input, failure := conn.input, conn.failure;
    ghost var p := Deliver(input, failure, NumOfLengthBytes);
    var lenBs := new byte[NumOfLengthBytes](_ => 0);
    var _, e := conn.Read(lenBs, 0);
    if e.Some? {
      return None, e;
    }
    assert lenBs[..] == p.got;
    var payload;
    payload, err := ReadPayload(conn, ReadBE64(lenBs[..]));
    data := Some(payload);
  }

  /** The second read of ReadMsg: a buffer of length bytes, filled from the connection. */
  method ReadPayload(conn: Conn, length: u64) returns (data: seq<byte>, err: Option<Error>)
    modifies conn
    ensures var q := Deliver(old(conn.input), old(conn.failure), length);
      data == q.got + Zeros(length - |q.got|) && err == q.err && conn.input == q.rest
    ensures conn.failure == old(conn.failure) && conn.writeFailure == old(conn.writeFailure)
    ensures conn.output == old(conn.output)
  {
    var buf := new byte[length](_ => 0);
    ghost var before := buf[..];
    assert before == Zeros(length);
    var n;
    n, err := conn.Read(buf, 0);
    assert before[n..] == Zeros(length - n);
    data := buf[..];
  }

  /** Reading what EncodeMsg produced yields the payload and leaves whatever follows it. */
  lemma ReadEncodedMsg(d: seq<byte>, rest: seq<byte>)
    requires |d| < U64_LIMIT
    ensures ReadFrame(EncodeMsg(d) + rest, None) == Message(Some(d), None, rest)
  {
    var input := EncodeMsg(d) + rest;
    assert input[..NumOfLengthBytes] == EncodeMsg(d)[..NumOfLengthBytes];
    var m := ReadFrame(input, None);
    assert input[NumOfLengthBytes..] == d + rest;
    assert m.data.value + m.rest == d + rest;
    assert m.data.value == (d + rest)[..|d|];
  }
}
