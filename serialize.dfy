/**
 * The serializer abstraction (micro/rpc3/serialize/types.go): a one-byte code
 * that travels in every frame, and an encoder and decoder between values and
 * bytes. The concrete formats are not part of this model: a serializer is
 * given by its code and its two functions.
 */
module Serialize {
  import opened Wrappers
  import opened Bytes

  /**
   * Stand-in for the Go values that service methods take and return.
   * Nil is a nil pointer, the result a method gives when it has none.
   */
  datatype Value = Nil | Int(i: int) | Text(s: seq<byte>) | Struct(fields: seq<Value>)

  datatype Serializer = Serializer(
    code: byte,
    encode: Value -> Result<seq<byte>, Error>,
    decode: seq<byte> -> Result<Value, Error>)

  /** The code of the JSON serializer, the one every server and client start with. */
  const JsonCode: byte := 1

  /** What a server and a client need to share a serializer: decoding undoes encoding. */
  ghost predicate RoundTrips(s: Serializer)
  {
    forall v :: s.encode(v).Ok? ==> s.decode(s.encode(v).value) == Ok(v)
  }
}
