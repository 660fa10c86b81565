/**
 * Bytes, fixed-width unsigned integers and the byte-level helpers the wire
 * code relies on: big-endian integers (Go's encoding/binary.BigEndian),
 * bytes.IndexByte and strconv.FormatUint in base 10.
 */
module Bytes {

  type byte = x: int | 0 <= x < 256

  const U32_LIMIT: int := 0x1_0000_0000
  const U64_LIMIT: int := 0x1_0000_0000_0000_0000

  type u32 = x: int | 0 <= x < 0x1_0000_0000
  type u64 = x: int | 0 <= x < 0x1_0000_0000_0000_0000

  /** 256 to the power n: the number of values n bytes can hold. */
  function Pow256(n: nat): (p: nat)
    ensures p >= 1
  {
    if n == 0 then 1 else 256 * Pow256(n - 1)
  }

  /** The n-byte big-endian representation of x (most significant byte first). */
  function EncodeBE(x: nat, n: nat): (s: seq<byte>)
    requires x < Pow256(n)
    ensures |s| == n
  {
    if n == 0 then [] else EncodeBE(x / 256, n - 1) + [x % 256]
  }

  /** The number whose big-endian representation is s. */
  function DecodeBE(s: seq<byte>): (x: nat)
    ensures x < Pow256(|s|)
  {
    if s == [] then 0 else DecodeBE(s[..|s| - 1]) * 256 + s[|s| - 1]
  }

  lemma DivBound(x: nat, p: nat)
    requires x < 256 * p
    ensures x / 256 < p
  {
  }

  /** Decoding a big-endian representation gives back the number. */
  lemma {:induction false} DecodeEncodeBE(x: nat, n: nat)
    requires x < Pow256(n)
    ensures DecodeBE(EncodeBE(x, n)) == x
  {
    if n > 0 {
      DivBound(x, Pow256(n - 1));
      var s := EncodeBE(x, n);
      assert s[..|s| - 1] == EncodeBE(x / 256, n - 1);
      DecodeEncodeBE(x / 256, n - 1);
    }
  }

  /** Every byte sequence is the big-endian representation of its value. */
  lemma {:induction false} EncodeDecodeBE(s: seq<byte>)
    ensures EncodeBE(DecodeBE(s), |s|) == s
  {
    if s != [] {
      var init := s[..|s| - 1];
      EncodeDecodeBE(init);
      var x := DecodeBE(s);
      assert x / 256 == DecodeBE(init);
      assert x % 256 == s[|s| - 1];
      assert s == init + [s[|s| - 1]];
    }
  }

  /** binary.BigEndian.PutUint32. */
  function BE32(x: u32): (s: seq<byte>)
    ensures |s| == 4
  {
    assert Pow256(4) == U32_LIMIT;
    EncodeBE(x, 4)
  }

  /** binary.BigEndian.Uint32 on a 4-byte slice. */
  function ReadBE32(s: seq<byte>): (x: u32)
    requires |s| == 4
  {
    assert Pow256(4) == U32_LIMIT;
    DecodeBE(s)
  }

  /** binary.BigEndian.PutUint64. */
  function BE64(x: u64): (s: seq<byte>)
    ensures |s| == 8
  {
    assert Pow256(8) == U64_LIMIT;
    EncodeBE(x, 8)
  }

  /** binary.BigEndian.Uint64 on an 8-byte slice. */
  function ReadBE64(s: seq<byte>): (x: u64)
    requires |s| == 8
  {
    assert Pow256(8) == U64_LIMIT;
    DecodeBE(s)
  }

  lemma ReadBE32OfBE32(x: u32)
    ensures ReadBE32(BE32(x)) == x
  {
    assert Pow256(4) == U32_LIMIT;
    DecodeEncodeBE(x, 4);
  }

  lemma BE32OfReadBE32(s: seq<byte>)
    requires |s| == 4
    ensures BE32(ReadBE32(s)) == s
  {
    EncodeDecodeBE(s);
  }

  lemma ReadBE64OfBE64(x: u64)
    ensures ReadBE64(BE64(x)) == x
  {
    assert Pow256(8) == U64_LIMIT;
    DecodeEncodeBE(x, 8);
  }

  /**
   * bytes.IndexByte: the index of the first occurrence of b in s, or -1
   * when b does not occur.
   */
  function IndexByte(s: seq<byte>, b: byte): (i: int)
    ensures i == -1 <==> b !in s
    ensures i != -1 ==> 0 <= i < |s| && s[i] == b && b !in s[..i]
  {
    if s == [] then -1
    else if s[0] == b then 0
    else
      var j := IndexByte(s[1..], b);
      assert s[1..][..j + 1] == s[1..j + 2] by {
        if j != -1 { assert j + 2 <= |s|; }
      }
      if j == -1 then -1 else j + 1
  }

  /** The first occurrence of b in x + [b] + y is the one after x. */
  lemma IndexByteAfter(x: seq<byte>, b: byte, y: seq<byte>)
    requires b !in x
    ensures IndexByte(x + [b] + y, b) == |x|
  {
    var s := x + [b] + y;
    assert s[|x|] == b;
    assert s[..|x|] == x;
  }

  /** An error of the RPC stack, modelled by the text its Error method returns. */
  type Error = seq<byte>

  /** The ASCII codes of a string of ASCII characters. */
  function Ascii(s: string): (r: seq<byte>)
    requires forall i | 0 <= i < |s| :: s[i] < 128 as char
    ensures |r| == |s|
    ensures forall i | 0 <= i < |s| :: r[i] == s[i] as int
  {
    seq(|s|, i requires 0 <= i < |s| => s[i] as int)
  }

  /** strconv.FormatUint(n, 10): the decimal digits of n, most significant first. */
  function Decimal(n: nat): (r: seq<byte>)
    ensures r != [] && |r| <= n + 1
    ensures forall i | 0 <= i < |r| :: '0' as int <= r[i] <= '9' as int
  {
    if n < 10 then ['0' as int + n] else Decimal(n / 10) + ['0' as int + n % 10]
  }

  /** The number that a sequence of decimal digits denotes. */
  function DigitsValue(s: seq<byte>): nat
    requires forall i | 0 <= i < |s| :: '0' as int <= s[i] <= '9' as int
  {
    if s == [] then 0 else DigitsValue(s[..|s| - 1]) * 10 + (s[|s| - 1] - '0' as int)
  }

  /** Decimal(n) denotes n: the text names the number it stands for. */
  lemma {:induction false} DecimalDenotes(n: nat)
    ensures DigitsValue(Decimal(n)) == n
  {
    if n >= 10 {
      var r := Decimal(n);
      assert r[..|r| - 1] == Decimal(n / 10);
      DecimalDenotes(n / 10);
    }
  }

  /** Distinct numbers have distinct decimal texts. */
  lemma DecimalInjective(m: nat, n: nat)
    requires Decimal(m) == Decimal(n)
    ensures m == n
  {
    DecimalDenotes(m);
    DecimalDenotes(n);
  }

  /** A run of n zero bytes: what Go's make leaves in a fresh slice. */
  function Zeros(n: nat): (z: seq<byte>)
    ensures |z| == n && forall i | 0 <= i < n :: z[i] == 0
  {
    seq(n, _ => 0)
  }

  /** Go's built-in copy(dst[at:], src): copies as many bytes as fit and reports how many. */
  method Copy(dst: array<byte>, at: nat, src: seq<byte>) returns (n: nat)
    requires at <= dst.Length
    modifies dst
    ensures n == if |src| < dst.Length - at then |src| else dst.Length - at
    ensures dst[..] == old(dst[..at]) + src[..n] + old(dst[at + n..])
  {
    n := if |src| < dst.Length - at then |src| else dst.Length - at;
    forall j | 0 <= j < n {
      dst[at + j] := src[j];
    }
    assert dst[..] == old(dst[..at]) + src[..n] + old(dst[at + n..]);
  }

  /** binary.BigEndian.PutUint32(dst[at:at+4], x). */
  method PutUint32(dst: array<byte>, at: nat, x: u32)
    requires at + 4 <= dst.Length
    modifies dst
    ensures dst[..] == old(dst[..at]) + BE32(x) + old(dst[at + 4..])
  {
    var n := Copy(dst, at, BE32(x));
    assert BE32(x)[..n] == BE32(x);
  }

  /**
   * copy(cur, src); cur = cur[len(src):] on a buffer whose first |written|
   * bytes are filled and whose remainder is still zero: src goes right
   * after what is written.
   */
  method Append(dst: array<byte>, at: nat, ghost written: seq<byte>, src: seq<byte>)
    requires at == |written| && at + |src| <= dst.Length
    requires dst[..] == written + Zeros(dst.Length - at)
    modifies dst
    ensures dst[..] == written + src + Zeros(dst.Length - at - |src|)
  {
    var n := Copy(dst, at, src);
    assert src[..n] == src;
    assert old(dst[at + n..]) == Zeros(dst.Length - at - |src|);
  }
}
