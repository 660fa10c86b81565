/**
 * The AnyValue accessors of cache/v1: a value a cache hands back together
 * with the error of getting it. Each accessor reports that error first and
 * only then checks the dynamic type of the value. JSON unmarshalling is a
 * function given to BindJson; what it writes into its target is its result.
 */
module AnyValue {
  import opened Wrappers
  import B = Bytes

  /** The dynamic type of an `any`: a string, a []byte (nil or not), or something else. */
  datatype Any = Str(s: string) | ByteSlice(b: Option<seq<B.byte>>) | Other

  datatype AnyValue = AnyValue(val: Any, err: Option<string>)

  /** The error for a value of the wrong type ("cannot convert this type"). */
  const ErrUnconvertible: string := "无法转换的类型"

  /** String: the stored error, else the value if it is a string, else the conversion error; "" whenever it fails. */
  function String(a: AnyValue): (r: (string, Option<string>))
    ensures a.err.Some? ==> r == ("", a.err)
    ensures a.err.None? && a.val.Str? ==> r == (a.val.s, None)
    ensures a.err.None? && !a.val.Str? ==> r == ("", Some(ErrUnconvertible))
  {
    if a.err.Some? then ("", a.err)
    else match a.val
      case Str(s) => (s, None)
      case _ => ("", Some(ErrUnconvertible))
  }

  /** Bytes: the stored error, else the value if it is a []byte, else the conversion error; nil whenever it fails. */
  function Bytes(a: AnyValue): (r: (Option<seq<B.byte>>, Option<string>))
    ensures a.err.Some? ==> r == (None, a.err)
    ensures a.err.None? && a.val.ByteSlice? ==> r == (a.val.b, None)
    ensures a.err.None? && !a.val.ByteSlice? ==> r == (None, Some(ErrUnconvertible))
  {
    if a.err.Some? then (None, a.err)
    else match a.val
      case ByteSlice(b) => (b, None)
      case _ => (None, Some(ErrUnconvertible))
  }

  /**
   * BindJson: the stored error, else the conversion error for a value that
   * is not a []byte, and only then what unmarshalling the bytes gives.
   */
  function BindJson<T>(a: AnyValue, unmarshal: Option<seq<B.byte>> -> Result<T, string>): (r: Result<T, string>)
    ensures a.err.Some? ==> r == Err(a.err.value)
    ensures a.err.None? && !a.val.ByteSlice? ==> r == Err(ErrUnconvertible)
    ensures a.err.None? && a.val.ByteSlice? ==> r == unmarshal(a.val.b)
  {
    if a.err.Some? then Err(a.err.value)
    else match a.val
      case ByteSlice(b) => unmarshal(b)
      case _ => Err(ErrUnconvertible)
  }

  /** An accessor succeeds exactly when there is no stored error and the value has its type. */
  lemma AccessorsSucceedOnTheirType(a: AnyValue)
    ensures String(a).1.None? <==> a.err.None? && a.val.Str?
    ensures Bytes(a).1.None? <==> a.err.None? && a.val.ByteSlice?
  {
  }

  /** The stored error wins over the value: every accessor reports it, whatever the value. */
  lemma StoredErrorFirst<T>(a: AnyValue, unmarshal: Option<seq<B.byte>> -> Result<T, string>)
    requires a.err.Some?
    ensures String(a).1 == Bytes(a).1 == a.err
    ensures BindJson(a, unmarshal) == Err(a.err.value)
  {
  }

  /** BindJson is Bytes followed by unmarshalling: it fails as Bytes fails, and otherwise unmarshals what Bytes gives. */
  lemma BindJsonIsBytesThenUnmarshal<T>(a: AnyValue, unmarshal: Option<seq<B.byte>> -> Result<T, string>)
    ensures Bytes(a).1.Some? ==> BindJson(a, unmarshal) == Err(Bytes(a).1.value)
    ensures Bytes(a).1.None? ==> BindJson(a, unmarshal) == unmarshal(Bytes(a).0)
  {
  }
}
