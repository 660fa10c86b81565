/**
 * The request frame of the binary RPC protocol (micro/rpc2/message/request.go).
 *
 * A frame starts with a fixed 15-byte header: HeaderLength, BodyLength and
 * RequestID as big-endian u32, then the Version, Compressor and Serializer
 * bytes. The variable header follows up to offset HeaderLength:
 * service '\n' method '\n' (key '\r' value '\n')*; the body (Data) follows it.
 */
module Request {
  import opened Wrappers
  import opened Bytes
  import opened Header

  /** '\n', which ends the service name, the method name and every meta pair. */
  const Splitter: byte := 10
  /** '\r', which separates a meta key from its value. */
  const PairSplitter: byte := 13

  type Pair = (seq<byte>, seq<byte>)

  /**
   * Meta as an association list. Go keeps a map; a list with distinct keys,
   * updated by Put the way a map assignment updates a map, stands for it.
   */
  type Meta = seq<Pair>

  datatype Request = Request(
    headerLength: u32,
    bodyLength: u32,
    requestId: u32,
    version: byte,
    compressor: byte,
    serializer: byte,
    serviceName: seq<byte>,
    methodName: seq<byte>,
    meta: Option<Meta>,
    data: Option<seq<byte>>)

  // ---------------------------------------------------------------------------
  // Meta as a map

  /** The value stored under k, as Go's m[k] with the ok flag. */
  function Lookup(m: Meta, k: seq<byte>): Option<seq<byte>>
  {
    if m == [] then None else if m[0].0 == k then Some(m[0].1) else Lookup(m[1..], k)
  }

  predicate DistinctKeys(m: Meta)
  {
    forall i, j | 0 <= i < j < |m| :: m[i].0 != m[j].0
  }

  /** m[k] = v: replaces the value of an existing key, or adds the key at the end. */
  function Put(m: Meta, k: seq<byte>, v: seq<byte>): (r: Meta)
    ensures Lookup(r, k) == Some(v)
    ensures forall k' | k' != k :: Lookup(r, k') == Lookup(m, k')
    ensures Lookup(m, k).None? ==> r == m + [(k, v)]
    ensures DistinctKeys(m) ==> DistinctKeys(r)
  {
    if m == [] then [(k, v)]
    else if m[0].0 == k then [(k, v)] + m[1..]
    else
      var t := Put(m[1..], k, v);
      var r := [m[0]] + t;
      assert DistinctKeys(m) ==> DistinctKeys(r) by {
        if DistinctKeys(m) {
          assert DistinctKeys(m[1..]);
          assert forall i | 1 <= i < |m| :: m[i] == m[1..][i - 1];
          LookupNone(m[1..], m[0].0);
          LookupNoneMeans(t, m[0].0);
          assert forall j | 1 <= j < |r| :: r[j] == t[j - 1];
        }
      }
      r
  }

  lemma LookupNoneMeans(m: Meta, k: seq<byte>)
    requires Lookup(m, k).None?
    ensures forall i | 0 <= i < |m| :: m[i].0 != k
  {
    if m != [] {
      LookupNoneMeans(m[1..], k);
      assert forall i | 1 <= i < |m| :: m[i] == m[1..][i - 1];
    }
  }

  lemma LookupNone(m: Meta, k: seq<byte>)
    requires forall i | 0 <= i < |m| :: m[i].0 != k
    ensures Lookup(m, k).None?
  {
    if m != [] {
      LookupNone(m[1..], k);
    }
  }

  /** Puts every pair of ps into m, front to back. */
  function PutAll(m: Meta, ps: Meta): Meta
    decreases |ps|
  {
    if ps == [] then m else PutAll(Put(m, ps[0].0, ps[0].1), ps[1..])
  }

  /** Putting pairs whose keys are all new appends them: the map keeps every pair. */
  lemma {:induction false} PutAllFresh(m: Meta, ps: Meta)
    requires DistinctKeys(m + ps)
    ensures PutAll(m, ps) == m + ps
    decreases |ps|
  {
    if ps != [] {
      var mp := m + ps;
      assert forall i | 0 <= i < |m| :: mp[i] == m[i];
      assert forall i | 0 <= i < |m| :: m[i].0 != ps[0].0 by {
        forall i | 0 <= i < |m| ensures m[i].0 != ps[0].0 {
          assert mp[i] == m[i] && mp[|m|] == ps[0];
        }
      }
      LookupNone(m, ps[0].0);
      assert Put(m, ps[0].0, ps[0].1) == m + [ps[0]];
      assert (m + [ps[0]]) + ps[1..] == m + ps;
      PutAllFresh(m + [ps[0]], ps[1..]);
    }
  }

  // ---------------------------------------------------------------------------
  // Layout

  /** key '\r' value '\n'. */
  function PairBytes(p: Pair): seq<byte>
  {
    p.0 + [PairSplitter] + p.1 + [Splitter]
  }

  function MetaBytes(m: Meta): seq<byte>
  {
    if m == [] then [] else PairBytes(m[0]) + MetaBytes(m[1..])
  }

  /** Sum over the meta pairs of |key| + 1 + |value| + 1. */
  function MetaSize(m: Meta): nat
  {
    if m == [] then 0 else |m[0].0| + 1 + |m[0].1| + 1 + MetaSize(m[1..])
  }

  lemma {:induction false} MetaBytesLength(m: Meta)
    ensures |MetaBytes(m)| == MetaSize(m)
  {
    if m != [] {
      MetaBytesLength(m[1..]);
    }
  }

  lemma {:induction false} MetaBytesConcat(a: Meta, b: Meta)
    ensures MetaBytes(a + b) == MetaBytes(a) + MetaBytes(b)
  {
    if a != [] {
      calc {
        MetaBytes(a + b);
        PairBytes((a + b)[0]) + MetaBytes((a + b)[1..]);
        { assert (a + b)[0] == a[0]; assert (a + b)[1..] == a[1..] + b; }
        PairBytes(a[0]) + MetaBytes(a[1..] + b);
        { MetaBytesConcat(a[1..], b); }
        PairBytes(a[0]) + (MetaBytes(a[1..]) + MetaBytes(b));
        MetaBytes(a) + MetaBytes(b);
      }
    } else {
      assert a + b == b;
    }
  }

  /** The encoding of the first i meta pairs grows by one pair at a time. */
  lemma MetaBytesStep(m: Meta, i: nat)
    requires i < |m|
    ensures MetaBytes(m[..i + 1]) == MetaBytes(m[..i]) + PairBytes(m[i])
  {
    assert m[..i + 1] == m[..i] + [m[i]];
    MetaBytesConcat(m[..i], [m[i]]);
  }

  /** service '\n' method '\n' followed by the meta pairs: bytes [15, HeaderLength). */
  function VarHeader(r: Request): seq<byte>
  {
    r.serviceName + [Splitter] + r.methodName + [Splitter] + MetaBytes(r.meta.GetOr([]))
  }

  /** 15 + |service| + 1 + |method| + 1 + Sum(|key| + 1 + |value| + 1). */
  function HeaderSize(r: Request): nat
  {
    FixedHeaderLength + |r.serviceName| + 1 + |r.methodName| + 1 + MetaSize(r.meta.GetOr([]))
  }

  /** The formula of HeaderSize is exactly the room the header layout takes. */
  lemma HeaderSizeIsLayout(r: Request)
    ensures HeaderSize(r) == FixedHeaderLength + |VarHeader(r)|
  {
    MetaBytesLength(r.meta.GetOr([]));
  }

  /**
   * Request.CalculateHeaderLength: stores the header size, truncated to
   * uint32 as Go's conversion does; nothing else changes.
   */
  function CalculateHeaderLength(r: Request): (r': Request)
    ensures r'.headerLength == HeaderSize(r) % U32_LIMIT
    ensures r' == r.(headerLength := r'.headerLength)
  {
    r.(headerLength := HeaderSize(r) % U32_LIMIT)
  }

  /** Request.CalculateBodyLength: stores |Data|; nothing else changes. */
  function CalculateBodyLength(r: Request): (r': Request)
    ensures r'.bodyLength == |r.data.GetOr([])| % U32_LIMIT
    ensures r' == r.(bodyLength := r'.bodyLength)
  {
    r.(bodyLength := |r.data.GetOr([])| % U32_LIMIT)
  }

  /** Both length calculations, as every caller performs them before encoding. */
  function WithLengths(r: Request): Request
  {
    CalculateBodyLength(CalculateHeaderLength(r))
  }

  /** len(bs) in EncodeReq: BodyLength + HeaderLength, added in uint32. */
  function FrameSize(r: Request): nat
  {
    (r.bodyLength + r.headerLength) % U32_LIMIT
  }

  /** EncodeReq does not panic: the whole variable header fits in the buffer. */
  predicate Encodable(r: Request)
  {
    FixedHeaderLength + |VarHeader(r)| <= FrameSize(r)
  }

  /** The bytes EncodeReq returns. */
  function ReqFrame(r: Request): (f: seq<byte>)
    requires Encodable(r)
    ensures |f| == FrameSize(r)
  {
    var room := FrameSize(r) - FixedHeaderLength - |VarHeader(r)|;
    FixedHeader(r.headerLength, r.bodyLength, r.requestId, r.version, r.compressor, r.serializer)
      + VarHeader(r) + Fit(r.data.GetOr([]), room)
  }

  /** One copy through the cursor: src goes right after the part of the variable header written so far. */
  method AppendPart(bs: array<byte>, at: nat, ghost fixed: seq<byte>, ghost hdr: seq<byte>, src: seq<byte>)
    requires at == |fixed| + |hdr| && at + |src| <= bs.Length
    requires bs[..] == fixed + hdr + Zeros(bs.Length - at)
    modifies bs
    ensures bs[..] == fixed + (hdr + src) + Zeros(bs.Length - at - |src|)
  {
    Append(bs, at, fixed + hdr, src);
    assert fixed + hdr + src == fixed + (hdr + src);
  }

  /**
   * EncodeReq: allocates HeaderLength + BodyLength bytes, writes the fixed
   * header, then service, method and meta pairs through an advancing cursor,
   * and copies Data into what is left.
   */
  method EncodeReq(req: Request) returns (frame: seq<byte>)
    requires Encodable(req)
    ensures frame == ReqFrame(req)
  {
    var bs := new byte[(req.bodyLength + req.headerLength) % U32_LIMIT](_ => 0);
    WriteFixedHeader(bs, req.headerLength, req.bodyLength, req.requestId,
                     req.version, req.compressor, req.serializer);
    ghost var fixed := FixedHeader(req.headerLength, req.bodyLength, req.requestId,
                                   req.version, req.compressor, req.serializer);
    var meta := req.meta.GetOr([]);
    assert |VarHeader(req)| == |req.serviceName| + 1 + |req.methodName| + 1 + |MetaBytes(meta)|;
    assert fixed + [] == fixed;
    var cur := WriteNames(bs, fixed, req.serviceName, req.methodName, |MetaBytes(meta)|);
    ghost var names := req.serviceName + [Splitter] + req.methodName + [Splitter];
    cur := WriteMeta(bs, cur, fixed, names, meta);
    assert names + MetaBytes(meta) == VarHeader(req);
    CopyBody(bs, cur, fixed + VarHeader(req), req.data.GetOr([]));
    frame := bs[..];
  }

  /** The service name and the method name, each followed by '\n'. */
  method WriteNames(bs: array<byte>, ghost fixed: seq<byte>, serviceName: seq<byte>, methodName: seq<byte>, ghost more: nat)
    returns (cur: nat)
    requires |fixed| == 15 && 15 + |serviceName| + 1 + |methodName| + 1 + more <= bs.Length
    requires bs[..] == fixed + [] + Zeros(bs.Length - 15)
    modifies bs
    ensures cur == 15 + |serviceName| + 1 + |methodName| + 1
    ensures bs[..] == fixed + (serviceName + [Splitter] + methodName + [Splitter]) + Zeros(bs.Length - cur)
  {
    cur := 15;
    AppendPart(bs, cur, fixed, [], serviceName);
    assert [] + serviceName == serviceName;
    cur := cur + |serviceName|;
    AppendPart(bs, cur, fixed, serviceName, [Splitter]);
    cur := cur + 1;
    AppendPart(bs, cur, fixed, serviceName + [Splitter], methodName);
    cur := cur + |methodName|;
    AppendPart(bs, cur, fixed, serviceName + [Splitter] + methodName, [Splitter]);
    cur := cur + 1;
  }

  /** One pass of the meta loop: key, '\r', value, '\n' through the cursor. */
  method WritePair(bs: array<byte>, at: nat, ghost fixed: seq<byte>, ghost hdr: seq<byte>, p: Pair)
    returns (cur: nat)
    requires at == |fixed| + |hdr| && at + |PairBytes(p)| <= bs.Length
    requires bs[..] == fixed + hdr + Zeros(bs.Length - at)
    modifies bs
    ensures cur == at + |PairBytes(p)|
    ensures bs[..] == fixed + (hdr + PairBytes(p)) + Zeros(bs.Length - cur)
  {
    var key, value := p.0, p.1;
    cur := at;
    AppendPart(bs, cur, fixed, hdr, key);
    cur := cur + |key|;
    AppendPart(bs, cur, fixed, hdr + key, [PairSplitter]);
    cur := cur + 1;
    AppendPart(bs, cur, fixed, hdr + key + [PairSplitter], value);
    cur := cur + |value|;
    AppendPart(bs, cur, fixed, hdr + key + [PairSplitter] + value, [Splitter]);
    cur := cur + 1;
    assert hdr + key + [PairSplitter] + value + [Splitter] == hdr + PairBytes(p);
  }

  /** The header after pair i is the header before it with that pair's bytes appended. */
  lemma MetaLoopStep(names: seq<byte>, hdr: seq<byte>, meta: Meta, i: nat)
    requires i < |meta| && hdr == names + MetaBytes(meta[..i])
    ensures hdr + PairBytes(meta[i]) == names + MetaBytes(meta[..i + 1])
    ensures |MetaBytes(meta[i..])| == |PairBytes(meta[i])| + |MetaBytes(meta[i + 1..])|
  {
    MetaBytesStep(meta, i);
    assert meta[i..] == [meta[i]] + meta[i + 1..];
    MetaBytesConcat([meta[i]], meta[i + 1..]);
  }

  /** The loop over Meta: key '\r' value '\n' for every pair, in list order. */
  method WriteMeta(bs: array<byte>, cur0: nat, ghost fixed: seq<byte>, ghost names: seq<byte>, meta: Meta)
    returns (cur: nat)
    requires cur0 == |fixed| + |names| && cur0 + |MetaBytes(meta)| <= bs.Length
    requires bs[..] == fixed + names + Zeros(bs.Length - cur0)
    modifies bs
    ensures cur == cur0 + |MetaBytes(meta)|
    ensures bs[..] == fixed + (names + MetaBytes(meta)) + Zeros(bs.Length - cur)
  {
    cur := cur0;
    ghost var hdr := names;
    assert names + MetaBytes(meta[..0]) == names;
    assert meta[..0] + meta[0..] == meta;
    MetaBytesConcat(meta[..0], meta[0..]);
    for i := 0 to |meta|
      invariant hdr == names + MetaBytes(meta[..i])
      invariant cur == |fixed| + |hdr|
      invariant |hdr| + |MetaBytes(meta[i..])| == |names| + |MetaBytes(meta)|
      invariant bs[..] == fixed + hdr + Zeros(bs.Length - cur)
    {
      MetaLoopStep(names, hdr, meta, i);
      cur := WritePair(bs, cur, fixed, hdr, meta[i]);
      hdr := hdr + PairBytes(meta[i]);
    }
    assert meta[..|meta|] == meta;
  }

  // ---------------------------------------------------------------------------
  // Decoding

  /** Every '\n'-terminated piece of h holds a '\r' (DecodeReq panics otherwise). */
  predicate PairsSplittable(h: seq<byte>)
    decreases |h|
  {
    var i := IndexByte(h, Splitter);
    i == -1 || (PairSplitter in h[..i] && PairsSplittable(h[i + 1..]))
  }

  /** A pair splits at its first '\r': the key before it, the value after it. */
  function SplitPair(p: seq<byte>): (kv: Pair)
    requires PairSplitter in p
    ensures p == kv.0 + [PairSplitter] + kv.1 && PairSplitter !in kv.0
  {
    var j := IndexByte(p, PairSplitter);
    assert p == p[..j] + [PairSplitter] + p[j + 1..];
    (p[..j], p[j + 1..])
  }

  /** The meta loop of DecodeReq: each '\n'-terminated piece is put into acc in turn. */
  function CollectMeta(acc: Meta, h: seq<byte>): Meta
    requires PairsSplittable(h)
    decreases |h|
  {
    var i := IndexByte(h, Splitter);
    if i == -1 then acc
    else
      var kv := SplitPair(h[..i]);
      CollectMeta(Put(acc, kv.0, kv.1), h[i + 1..])
  }

  lemma SplitAround(s: seq<byte>, i: nat)
    requires i < |s|
    ensures s == s[..i] + [s[i]] + s[i + 1..]
  {
  }

  lemma JoinNames(a: seq<byte>, b: seq<byte>, c: seq<byte>)
    ensures a + [Splitter] + (b + [Splitter] + c) == a + [Splitter] + b + [Splitter] + c
  {
  }

  /** Service and method end at the first two '\n' of the header (DecodeReq panics otherwise). */
  predicate NamesSplittable(header: seq<byte>)
  {
    var i := IndexByte(header, Splitter);
    i != -1 && IndexByte(header[i + 1..], Splitter) != -1
  }

  /** Service name, method name and the meta part of a header. */
  function SplitNames(header: seq<byte>): (parts: (seq<byte>, seq<byte>, seq<byte>))
    requires NamesSplittable(header)
    ensures header == parts.0 + [Splitter] + parts.1 + [Splitter] + parts.2
    ensures Splitter !in parts.0 && Splitter !in parts.1
  {
    var i := IndexByte(header, Splitter);
    var rest := header[i + 1..];
    var j := IndexByte(rest, Splitter);
    var a, b, c := header[..i], rest[..j], rest[j + 1..];
    assert rest == b + [Splitter] + c by { SplitAround(rest, j); }
    assert header == a + [Splitter] + rest by { SplitAround(header, i); }
    JoinNames(a, b, c);
    (a, b, c)
  }

  /** The meta DecodeReq builds from the pairs part: absent when it holds no '\n'. */
  function MetaOf(pairs: seq<byte>): Option<Meta>
    requires PairsSplittable(pairs)
  {
    if IndexByte(pairs, Splitter) == -1 then None else Some(CollectMeta([], pairs))
  }

  /** DecodeReq does not panic on data. */
  predicate ReqDecodable(data: seq<byte>)
  {
    && |data| >= FixedHeaderLength
    && FixedHeaderLength <= ReadBE32(data[..4]) <= |data|
    && NamesSplittable(data[FixedHeaderLength..ReadBE32(data[..4])])
    && PairsSplittable(SplitNames(data[FixedHeaderLength..ReadBE32(data[..4])]).2)
  }

  /** The request DecodeReq builds from data. */
  function ReqOf(data: seq<byte>): Request
    requires ReqDecodable(data)
  {
    var h := ReadBE32(data[..4]);
    var b := ReadBE32(data[4..8]);
    var parts := SplitNames(data[FixedHeaderLength..h]);
    Request(h, b, ReadBE32(data[8..12]), data[12], data[13], data[14],
            parts.0, parts.1, MetaOf(parts.2),
            if b != 0 then Some(data[h..]) else None)
  }

  /**
   * DecodeReq: reads the fixed fields, splits service and method at the first
   * two '\n' of [15, HeaderLength), decodes the meta pairs, and sets Data
   * only when BodyLength is not zero.
   */
  method DecodeReq(data: seq<byte>) returns (req: Request)
    requires ReqDecodable(data)
    ensures req == ReqOf(data)
  {
    var headerLength := ReadBE32(data[..4]);
    var bodyLength := ReadBE32(data[4..8]);
    var requestId := ReadBE32(data[8..12]);
    var header := data[15..headerLength];
    ghost var parts := SplitNames(header);

    var index := IndexByte(header, Splitter);
    var serviceName := header[..index];
    header := header[index + 1..];

    index := IndexByte(header, Splitter);
    var methodName := header[..index];
    header := header[index + 1..];
    assert (serviceName, methodName, header) == parts;

    var meta := DecodeMeta(header);
    var body: Option<seq<byte>> := None;
    if bodyLength != 0 {
      body := Some(data[headerLength..]);
    }
    req := Request(headerLength, bodyLength, requestId, data[12], data[13], data[14],
                   serviceName, methodName, meta, body);
  }

  /**
   * The meta loop of DecodeReq: while a '\n' remains, the piece before it is
   * split at its first '\r' and stored into a map made on the first piece.
   */
  method DecodeMeta(pairs: seq<byte>) returns (meta: Option<Meta>)
    requires PairsSplittable(pairs)
    ensures meta == MetaOf(pairs)
  {
    var header := pairs;
    meta := None;
    var index := IndexByte(header, Splitter);
    if index != -1 {
      var m: Meta := [];
      while index != -1
        invariant PairsSplittable(header)
        invariant index == IndexByte(header, Splitter)
        invariant CollectMeta(m, header) == CollectMeta([], pairs)
        decreases |header|
      {
        var pair := header[..index];
        var pairIndex := IndexByte(pair, PairSplitter);
        var key := pair[..pairIndex];
        var value := pair[pairIndex + 1..];
        assert (key, value) == SplitPair(pair);
        m := Put(m, key, value);
        header := header[index + 1..];
        index := IndexByte(header, Splitter);
      }
      meta := Some(m);
    }
  }

  // ---------------------------------------------------------------------------
  // Properties

  /** A meta list the delimiter-based encoding can carry. */
  predicate MetaWellFormed(m: Meta)
  {
    forall i | 0 <= i < |m| ::
      Splitter !in m[i].0 && PairSplitter !in m[i].0 && Splitter !in m[i].1
  }

  /**
   * A request that survives the round trip: names and meta free of the
   * delimiters, distinct meta keys, Meta and Data either absent or non-empty
   * (Go tells a nil map or slice from an empty one), and lengths that fit in uint32.
   */
  predicate WellFormed(r: Request)
  {
    && Splitter !in r.serviceName
    && Splitter !in r.methodName
    && (r.meta.Some? ==> r.meta.value != [] && DistinctKeys(r.meta.value) && MetaWellFormed(r.meta.value))
    && (r.data.Some? ==> r.data.value != [])
    && HeaderSize(r) + |r.data.GetOr([])| < U32_LIMIT
  }

  /**
   * With the lengths calculated, the frame is exactly HeaderLength +
   * BodyLength bytes: the fixed header, the variable header up to
   * HeaderLength and then the whole of Data.
   */
  lemma FrameLayout(r: Request)
    requires HeaderSize(r) + |r.data.GetOr([])| < U32_LIMIT
    ensures var r' := WithLengths(r);
      && Encodable(r')
      && r'.headerLength == FixedHeaderLength + |VarHeader(r)|
      && r'.bodyLength == |r.data.GetOr([])|
      && |ReqFrame(r')| == r'.headerLength + r'.bodyLength
      && ReqFrame(r') == FixedHeader(r'.headerLength, r'.bodyLength, r.requestId,
                                     r.version, r.compressor, r.serializer)
                         + VarHeader(r) + r.data.GetOr([])
  {
    HeaderSizeIsLayout(r);
    var r' := WithLengths(r);
    assert VarHeader(r') == VarHeader(r);
  }

  /** The bytes at the fixed offsets of any encoded request are its fixed fields. */
  lemma FixedFieldsAtOffsets(r: Request)
    requires Encodable(r)
    ensures var f := ReqFrame(r);
      && f[..4] == BE32(r.headerLength) && f[4..8] == BE32(r.bodyLength)
      && f[8..12] == BE32(r.requestId)
      && f[12] == r.version && f[13] == r.compressor && f[14] == r.serializer
      && f[15..15 + |VarHeader(r)|] == VarHeader(r)
  {
    var f := ReqFrame(r);
    var fixed := FixedHeader(r.headerLength, r.bodyLength, r.requestId, r.version, r.compressor, r.serializer);
    assert f[..15] == fixed;
    assert fixed[..4] == BE32(r.headerLength);
    assert fixed[4..8] == BE32(r.bodyLength);
    assert fixed[8..12] == BE32(r.requestId);
  }

  /** The first pair of a well-formed meta list is the first piece of its encoding. */
  lemma MetaBytesFirst(m: Meta)
    requires MetaWellFormed(m) && m != []
    ensures var i := IndexByte(MetaBytes(m), Splitter);
      && i == |m[0].0| + 1 + |m[0].1|
      && PairSplitter in MetaBytes(m)[..i]
      && SplitPair(MetaBytes(m)[..i]) == m[0]
      && MetaBytes(m)[i + 1..] == MetaBytes(m[1..])
      && MetaWellFormed(m[1..])
  {
    var k, v := m[0].0, m[0].1;
    var tail := MetaBytes(m[1..]);
    var p := k + [PairSplitter] + v;
    assert MetaBytes(m) == p + [Splitter] + tail;
    assert Splitter !in p;
    IndexByteAfter(p, Splitter, tail);
    assert MetaBytes(m)[..|p|] == p;
    assert MetaBytes(m)[|p| + 1..] == tail;
    IndexByteAfter(k, PairSplitter, v);
    assert p[..|k|] == k && p[|k| + 1..] == v;
    MetaWellFormedTail(m);
  }

  lemma MetaWellFormedTail(m: Meta)
    requires MetaWellFormed(m) && m != []
    ensures MetaWellFormed(m[1..])
  {
    forall j | 0 <= j < |m[1..]| ensures m[1..][j] == m[j + 1] {
    }
  }

  lemma {:induction false} MetaBytesSplittable(m: Meta, acc: Meta)
    requires MetaWellFormed(m)
    ensures PairsSplittable(MetaBytes(m))
    ensures CollectMeta(acc, MetaBytes(m)) == PutAll(acc, m)
    ensures IndexByte(MetaBytes(m), Splitter) == -1 <==> m == []
    decreases |m|
  {
    if m != [] {
      MetaBytesFirst(m);
      MetaBytesSplittable(m[1..], Put(acc, m[0].0, m[0].1));
    }
  }

  /** Service and method are recovered from a header that starts with them. */
  lemma NamesRoundTrip(serviceName: seq<byte>, methodName: seq<byte>, rest: seq<byte>)
    requires Splitter !in serviceName && Splitter !in methodName
    ensures var header := serviceName + [Splitter] + methodName + [Splitter] + rest;
      NamesSplittable(header) && SplitNames(header) == (serviceName, methodName, rest)
  {
    var afterService := methodName + [Splitter] + rest;
    var header := serviceName + [Splitter] + afterService;
    JoinNames(serviceName, methodName, rest);
    IndexByteAfter(serviceName, Splitter, afterService);
    assert header[..|serviceName|] == serviceName;
    assert header[|serviceName| + 1..] == afterService;
    IndexByteAfter(methodName, Splitter, rest);
    assert afterService[..|methodName|] == methodName;
    assert afterService[|methodName| + 1..] == rest;
  }

  /** A well-formed meta list is decoded back from its encoding, absent exactly when empty. */
  lemma MetaRoundTrip(meta: Option<Meta>)
    requires meta.Some? ==> meta.value != [] && DistinctKeys(meta.value) && MetaWellFormed(meta.value)
    ensures PairsSplittable(MetaBytes(meta.GetOr([])))
    ensures MetaOf(MetaBytes(meta.GetOr([]))) == meta
  {
    var m := meta.GetOr([]);
    MetaBytesSplittable(m, []);
    assert [] + m == m;
    PutAllFresh([], m);
  }

  /**
   * The round trip the codec promises: a well-formed request, with its
   * lengths calculated, decodes from its own encoding to itself, whatever
   * bytes (newlines included) Data holds.
   */
  lemma RequestRoundTrip(r: Request)
    requires WellFormed(r)
    ensures Encodable(WithLengths(r))
    ensures ReqDecodable(ReqFrame(WithLengths(r)))
    ensures ReqOf(ReqFrame(WithLengths(r))) == WithLengths(r)
  {
    FrameLayout(r);
    var r' := WithLengths(r);
    var f := ReqFrame(r');
    var d := r.data.GetOr([]);
    var vh := VarHeader(r);
    var h := r'.headerLength;
    var b := r'.bodyLength;
    var fixed := FixedHeader(h, b, r.requestId, r.version, r.compressor, r.serializer);
    assert f == fixed + (vh + d) by {
      assert f == fixed + vh + d;
    }
    FixedHeaderFields(h, b, r.requestId, r.version, r.compressor, r.serializer, vh + d);
    assert f[15..h] == vh by {
      assert f[15..] == vh + d;
      assert |vh| == h - 15;
    }
    assert f[h..] == d;
    var mb := MetaBytes(r.meta.GetOr([]));
    assert vh == r.serviceName + [Splitter] + r.methodName + [Splitter] + mb;
    NamesRoundTrip(r.serviceName, r.methodName, mb);
    MetaRoundTrip(r.meta);
    assert ReqDecodable(f);
    assert b != 0 <==> r.data.Some?;
  }
}
