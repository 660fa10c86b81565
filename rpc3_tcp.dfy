/**
 * Reading one protocol frame from a connection (micro/rpc3/tcp.go): the first
 * eight bytes are HeaderLength and BodyLength, and their uint32 sum is the
 * length of the whole frame, prefix included.
 */
module Rpc3Tcp {
  import opened Wrappers
  import opened Bytes
  import opened Conn

  const NumOfLengthBytes: nat := 8

  /** headerLength + bodyLength as read from the prefix, added in uint32. */
  function FrameLength(prefix: seq<byte>): u32
    requires |prefix| == NumOfLengthBytes
  {
    (ReadBE32(prefix[..4]) + ReadBE32(prefix[4..])) % U32_LIMIT
  }

  /** ReadMsg does not panic: a prefix that is read announces at least its own eight bytes. */
  predicate ReadSafe(input: seq<byte>, failure: Option<Error>)
  {
    failure.Some? || |input| < NumOfLengthBytes || FrameLength(input[..NumOfLengthBytes]) >= NumOfLengthBytes
  }

  /** What ReadMsg returns, and the bytes it leaves on the connection. */
  datatype Message = Message(data: Option<seq<byte>>, err: Option<Error>, rest: seq<byte>)

  /**
   * ReadMsg on a connection holding input: no data when the prefix cannot be
   * read; otherwise a buffer of the announced length starting with the prefix,
   * filled from the connection, with EOF when the stream ends short of it.
   */
  function ReadFrame(input: seq<byte>, failure: Option<Error>): (m: Message)
    requires ReadSafe(input, failure)
    ensures m.data.None? <==> failure.Some? || |input| < NumOfLengthBytes
    ensures m.data.None? ==> m.err.Some?
    ensures m.data.Some? ==>
      && |m.data.value| == FrameLength(input[..NumOfLengthBytes])
      && m.data.value[..NumOfLengthBytes] == input[..NumOfLengthBytes]
    ensures m.err.None? <==>
      failure.None? && |input| >= NumOfLengthBytes && FrameLength(input[..NumOfLengthBytes]) <= |input|
    ensures m.err.None? ==> m.data.Some? && m.data.value + m.rest == input
  {
    var p := Deliver(input, failure, NumOfLengthBytes);
    if p.err.Some? then Message(None, p.err, p.rest)
    else
      var length := FrameLength(p.got);
      var q := Deliver(p.rest, failure, length - NumOfLengthBytes);
      Message(Some(p.got + q.got + Zeros(length - NumOfLengthBytes - |q.got|)), q.err, q.rest)
  }

  /** ReadMsg: the prefix into its own buffer, then the rest of the frame. */
  method ReadMsg(conn: Conn) returns (data: Option<seq<byte>>, err: Option<Error>)
    requires ReadSafe(conn.input, conn.failure)
    modifies conn
    ensures Message(data, err, conn.input) == ReadFrame(old(conn.input), old(conn.failure))
    ensures conn.failure == old(conn.failure) && conn.writeFailure == old(conn.writeFailure)
    ensures conn.output == old(conn.output)
  {
    ghost var input, failure := conn.input, conn.failure;
    ghost var p := Deliver(input, failure, NumOfLengthBytes);
    var lenBs := new byte[NumOfLengthBytes](_ => 0);
    var _, e := conn.Read(lenBs, 0);
    if e.Some? {
      return None, e;
    }
    var prefix := lenBs[..];
    assert prefix == p.got;
    var frame;
    frame, err := ReadBody(conn, prefix);
    data := Some(frame);
  }

  /**
   * The second half of ReadMsg: a buffer of the announced length, the prefix
   * copied into its first eight bytes, the rest read into it from the connection.
   */
  method ReadBody(conn: Conn, prefix: seq<byte>) returns (data: seq<byte>, err: Option<Error>)
    requires |prefix| == NumOfLengthBytes && FrameLength(prefix) >= NumOfLengthBytes
    modifies conn
    ensures var length := FrameLength(prefix);
      var q := Deliver(old(conn.input), old(conn.failure), length - NumOfLengthBytes);
      && data == prefix + q.got + Zeros(length - NumOfLengthBytes - |q.got|)
      && err == q.err && conn.input == q.rest
    ensures conn.failure == old(conn.failure) && conn.writeFailure == old(conn.writeFailure)
    ensures conn.output == old(conn.output)
  {
    var length := (ReadBE32(prefix[..4]) + ReadBE32(prefix[4..])) % U32_LIMIT;
    var buf := new byte[length](_ => 0);
    var _ := Copy(buf, 0, prefix);
    ghost var before := buf[..];
    assert before == prefix + Zeros(length - NumOfLengthBytes);
    var n;
    n, err := conn.Read(buf, NumOfLengthBytes);
    assert before[NumOfLengthBytes + n..] == Zeros(length - NumOfLengthBytes - n);
    data := buf[..];
  }

  /**
   * A stream that begins with a frame whose prefix announces the frame's own
   * length yields exactly that frame and leaves the bytes after it.
   */
  lemma ReadsAnnouncedFrame(f: seq<byte>, rest: seq<byte>)
    requires |f| >= NumOfLengthBytes && FrameLength(f[..NumOfLengthBytes]) == |f|
    ensures ReadSafe(f + rest, None)
    ensures ReadFrame(f + rest, None) == Message(Some(f), None, rest)
  {
    var input := f + rest;
    assert input[..NumOfLengthBytes] == f[..NumOfLengthBytes];
    var m := ReadFrame(input, None);
    assert m.data.value + m.rest == f + rest;
    assert m.data.value == f by {
      assert |m.data.value| == |f|;
      assert m.data.value == (f + rest)[..|f|];
    }
  }
}
