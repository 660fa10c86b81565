/**
 * A network connection as the RPC framing code sees it: the bytes the peer
 * has still to deliver, an error the connection may report instead, and the
 * bytes written to it so far.
 */
module Conn {
  import opened Wrappers
  import opened Bytes

  /** io.EOF: the stream ended before the read was satisfied. */
  const EOF: Error := Ascii("EOF")

  /** What one Read hands back: the bytes delivered, the error, the bytes left. */
  datatype Delivery = Delivery(got: seq<byte>, err: Option<Error>, rest: seq<byte>)

  /**
   * One Read into a buffer of n bytes. A failing connection delivers nothing
   * and reports its error; otherwise the read is satisfied in full, or, when
   * the stream runs out first, delivers what is left and reports EOF.
   */
  function Deliver(input: seq<byte>, failure: Option<Error>, n: nat): (d: Delivery)
    ensures d.got + d.rest == input
    ensures |d.got| <= n
    ensures d.err.None? <==> failure.None? && n <= |input|
    ensures d.err.None? ==> |d.got| == n
    ensures failure.Some? ==> d.err == failure && d.got == []
  {
    if failure.Some? then Delivery([], failure, input)
    else if n <= |input| then Delivery(input[..n], None, input[n..])
    else Delivery(input, Some(EOF), [])
  }

  class Conn {
    /** The bytes the peer has sent that are not read yet. */
    var input: seq<byte>
    /** An error every read reports (a closed or broken connection), if any. */
    var failure: Option<Error>
    /** An error every write reports, if any. */
    var writeFailure: Option<Error>
    /** Everything written to the connection so far. */
    var output: seq<byte>

    constructor (input: seq<byte>, failure: Option<Error>, writeFailure: Option<Error>)
      ensures this.input == input && this.failure == failure && this.writeFailure == writeFailure
      ensures output == []
    {
      this.input := input;
      this.failure := failure;
      this.writeFailure := writeFailure;
      output := [];
    }

    /**
     * conn.Read(buf[from:]): fills the front of that part of buf with the
     * delivered bytes and returns their count and the error.
     */
    method Read(buf: array<byte>, from: nat) returns (n: nat, err: Option<Error>)
      requires from <= buf.Length
      modifies this, buf
      ensures var d := Deliver(old(input), old(failure), buf.Length - from);
        && n == |d.got| && err == d.err && input == d.rest
        && buf[..] == old(buf[..from]) + d.got + old(buf[from + n..])
      ensures failure == old(failure) && writeFailure == old(writeFailure) && output == old(output)
    {
      var d := Deliver(input, failure, buf.Length - from);
      input := d.rest;
      n := Copy(buf, from, d.got);
      assert d.got[..n] == d.got;
      err := d.err;
    }

    /** conn.Write(bs): the bytes go out in full, unless writes fail. */
    method Write(bs: seq<byte>) returns (err: Option<Error>)
      modifies this
      ensures err == writeFailure
      ensures output == if err.Some? then old(output) else old(output) + bs
      ensures input == old(input) && failure == old(failure) && writeFailure == old(writeFailure)
    {
      err := writeFailure;
      if err.None? {
        output := output + bs;
      }
    }
  }
}
