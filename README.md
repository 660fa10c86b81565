# A verified model of the time-go2nd RPC stack, connection pool and local caches

This project models the core of luxpo/time-go2nd, a Go teaching repository.
The model is written in Dafny and its properties are proved. It covers:

- **The wire codec** (`micro/rpc2/message`). A request or response frame has a
  fixed 15-byte header: HeaderLength, BodyLength and RequestID as big-endian
  uint32, then the Version, Compressor and Serializer bytes. After it comes
  the variable header: for a request, `service '\n' method '\n' (key '\r' value '\n')*`;
  for a response, the Error bytes. Data follows.
  `EncodeReq` and `EncodeResp` fill a zeroed buffer of `HeaderLength + BodyLength`
  bytes through an advancing cursor. In the model they are array methods,
  proved equal to the frame functions `ReqFrame` and `RespFrame`.
  `DecodeReq` walks the header with `IndexByte` and inserts the meta pairs
  into a map. It is a method proved equal to the function `ReqOf`. The round
  trips are lemmas.
- **Framing on a connection.** `micro/rpc3/tcp.go` reads an 8-byte prefix
  whose uint32 sum is the frame length. `micro/rpc2/tcp.go` has a uint64
  length prefix and `EncodeMsg`. A connection is a class holding the bytes
  still to be delivered, a read error and a write error. The `ReadMsg`
  methods are proved against the functions `ReadFrame`.
- **The server** (`micro/rpc3/server.go`). It keeps registries of serializers
  and services. `Invoke` and the reflection stub's `invoke` dispatch a request
  to a method. `handleConn` is the connection loop, proved to write, for
  every request frame in order, the reply `Reply` gives it. It ends with the
  first read or write error (the function `Session`).
- **The client** (`micro/rpc3/client.go`). `setFuncField` binds a stub to every
  settable function field. Each stub builds its request with both lengths
  calculated, calls the proxy and decodes the answer. `Client.Invoke` and
  `Client.Send` run over one connection, `Send` including its one-way branch.
  `NewClient` applies its options in order. Lemmas connect a client stub to a
  server through one connection. The stub gets back exactly the response the
  server computed. A call then returns the method's result and error. An
  unknown service fails with "service not available". An unregistered
  serializer fails with the error naming its code.
- **The connection pool** (`micro/net/pool/pool.go`): NewPool's warm-up, and
  Get draining expired idle connections before reusing one, queuing a waiter,
  or dialling. Put hands the connection to a waiter, or stores it if there
  is room, or closes it.
- **Two local TTL caches**, `cache/local/v3` (with an eviction callback) and
  `cache/v2_1` (without one). Each supports Set, Get with lazy expiry, Delete,
  LoadAndDelete (v3 only) and one tick of the bounded sweep.
- **The AnyValue accessors** of `cache/v1`: String, Bytes and BindJson.

Time is an integer clock reading, passed to each operation that reads the clock.
Go's `nil` and empty slices and maps are told apart with `Option`.
uint32 arithmetic is written modulo 2^32 wherever the source can wrap.
The source panics in some cases: a truncated frame, a meta pair without `'\r'`,
a length prefix announcing fewer than 8 bytes, a method name the service
lacks, or an eviction with no callback installed. These are preconditions
(`ReqDecodable`, `ReadSafe`, `MethodFound`, `CanEvict` and the like).

Files: `wrappers.dfy` (Option, Result), `bytes.dfy` (bytes, big-endian,
`IndexByte`, decimal digits), `header.dfy`, `request.dfy`, `response.dfy`,
`conn.dfy`, `rpc3_tcp.dfy`, `rpc2_tcp.dfy`, `serialize.dfy`, `server.dfy`,
`client.dfy`, `endtoend.dfy`, `pool.dfy`, `seqs.dfy` (sequence associativity), `expiry.dfy` (what both caches
share), `cache_v3.dfy`, `cache_v2_1.dfy`, `anyvalue.dfy`.

Two behaviours of the code are worth naming, since the model keeps them:

- `Put` hands the connection to the most recently queued waiter, so waiters
  are served last-in first-out (micro/net/pool/pool.go:114-119).
  `Pool.Pool.Put` does the same.
- A one-way `Send` returns the error "micro: oneway" right after the write,
  and `Send` closes the connection when it returns rather than putting it
  back into the pool (micro/rpc3/client.go:178-189). `Client.Client.Send`
  returns that error.

## Model

| member | source | states |
|---|---|---|
| Bytes.DecodeEncodeBE | micro/rpc2/message/request.go:64-66 | decoding the n-byte big-endian form of x gives back x |
| Bytes.EncodeDecodeBE | micro/rpc2/message/request.go:29-31 | every byte string is the big-endian form of the number it decodes to |
| Bytes.ReadBE32OfBE32 | micro/rpc2/message/request.go:29-31 | binary.BigEndian.Uint32 undoes PutUint32 |
| Bytes.BE32OfReadBE32 | micro/rpc2/message/request.go:64-66 | PutUint32 undoes Uint32 on any four bytes |
| Bytes.ReadBE64OfBE64 | micro/rpc2/tcp.go:19-26 | binary.BigEndian.Uint64 undoes PutUint64 |
| Bytes.IndexByte | micro/rpc2/message/request.go:74 | -1 exactly when the byte is absent; otherwise the index of its first occurrence |
| Bytes.IndexByteAfter | micro/rpc2/message/request.go:74-76 | in x + [b] + y with b not in x, the first b is at offset \|x\| |
| Bytes.Decimal | micro/rpc3/server.go:125 | strconv.FormatUint(n, 10): a non-empty string of decimal digits |
| Bytes.DecimalDenotes | micro/rpc3/server.go:125 | the digits denote n |
| Bytes.DecimalInjective | micro/rpc3/server.go:125 | different numbers give different digit strings |
| Bytes.Copy | micro/rpc2/message/request.go:36 | Go's copy: min(len(src), room) bytes are copied and nothing else changes |
| Bytes.PutUint32 | micro/rpc2/message/request.go:29-31 | writes exactly the four big-endian bytes of x at the offset |
| Header.FixedHeaderFields | micro/rpc2/message/request.go:64-70 | the six fixed fields are read back from offsets 0, 4, 8, 12, 13, 14 of any frame that starts with them |
| Header.WriteFixedHeader | micro/rpc2/message/request.go:29-34 | the zeroed buffer then starts with the fixed header, with zeros after it |
| Header.CopyBody | micro/rpc2/message/request.go:56 | the buffer ends with Data cut or zero-padded to the room left |
| Request.Put | micro/rpc2/message/request.go:90 | meta[key] = value: the key maps to the value, every other key keeps its value, a new key is appended, distinct keys stay distinct |
| Request.PutAllFresh | micro/rpc2/message/request.go:85-94 | inserting pairs with new keys one by one keeps every pair |
| Request.MetaBytesConcat | micro/rpc2/message/request.go:45-54 | the meta encoding of two lists is the concatenation of their encodings |
| Request.CalculateHeaderLength | micro/rpc2/message/request.go:10-24 | HeaderLength becomes 15 + the variable header's size, modulo 2^32; nothing else changes |
| Request.CalculateBodyLength | micro/rpc2/message/request.go:10-24 | BodyLength becomes len(Data) modulo 2^32; nothing else changes |
| Request.EncodeReq | micro/rpc2/message/request.go:26-59 | the buffer EncodeReq fills is ReqFrame (fixed header, names, meta pairs, Data fit to the room left) |
| Request.WriteMeta | micro/rpc2/message/request.go:45-54 | the meta loop appends key '\r' value '\n' for each pair, in order, and advances the cursor by their length |
| Request.DecodeReq | micro/rpc2/message/request.go:61-103 | the request DecodeReq builds is ReqOf (fixed fields, names up to '\n', meta pairs split at '\r', Data only when BodyLength is non-zero) |
| Request.DecodeMeta | micro/rpc2/message/request.go:82-96 | the meta loop gives MetaOf: no map when the header has no '\n' left, otherwise every pair inserted in order |
| Request.FrameLayout | micro/rpc2/message/request.go:26-59 | with the lengths calculated, the frame is exactly HeaderLength + BodyLength bytes: fixed header, variable header, all of Data |
| Request.FixedFieldsAtOffsets | micro/rpc2/message/request.go:29-43 | every encoded frame holds its fixed fields and variable header at their offsets |
| Request.NamesRoundTrip | micro/rpc2/message/request.go:74-80 | service and method are split back off a header that starts with them |
| Request.MetaBytesSplittable | micro/rpc2/message/request.go:82-94 | the decoding loop over a well-formed meta encoding inserts exactly its pairs, and finds a '\n' iff there is a pair |
| Request.MetaRoundTrip | micro/rpc2/message/request.go:82-96 | a meta map of distinct, delimiter-free pairs decodes back to itself; nil exactly when absent |
| Request.RequestRoundTrip | micro/rpc2/message/request.go:26-103 | a well-formed request with its lengths calculated decodes from its own encoding to itself |
| Response.CalculateHeaderLength | micro/rpc2/message/response.go:60-62 | HeaderLength becomes 15 + len(Error) modulo 2^32; nothing else changes |
| Response.CalculateBodyLength | micro/rpc2/message/response.go:64-66 | BodyLength becomes len(Data) modulo 2^32; nothing else changes |
| Response.EncodeResp | micro/rpc2/message/response.go:20-36 | the buffer EncodeResp fills is RespFrame (fixed header, Error, Data, cut or zero-padded to HeaderLength + BodyLength) |
| Response.FrameLayout | micro/rpc2/message/response.go:20-36 | with the lengths calculated, the frame is exactly the fixed header, Error and Data |
| Response.DecodeResp | micro/rpc2/message/response.go:38-58 | the first 15 bytes are the fixed header of the decoded fields; Error is present iff HeaderLength > 15, and is then the bytes [15, HeaderLength); Data is present iff BodyLength != 0, and is then everything after HeaderLength |
| Response.DecodeLayout | micro/rpc2/message/response.go:38-58 | DecodeResp reads the fixed fields, Error only when HeaderLength > 15, Data only when BodyLength is non-zero |
| Response.ResponseRoundTrip | micro/rpc2/message/response.go:20-66 | a well-formed response with its lengths calculated decodes from its own encoding to itself, with either, both or neither of Error and Data |
| Conn.Deliver | micro/rpc3/tcp.go:10 | one Read: a failing connection delivers nothing and its error; otherwise the buffer is filled, or the rest is delivered with EOF |
| Conn.Conn.Read | micro/rpc3/tcp.go:10 | the buffer's filled part is what Deliver gives and the connection keeps the rest |
| Conn.Conn.Write | micro/rpc3/server.go:81 | the bytes are appended to the output unless the connection reports a write error |
| Rpc3Tcp.ReadFrame | micro/rpc3/tcp.go:8-24 | no data iff the prefix cannot be read; otherwise a buffer of the uint32 sum of the two lengths starting with the prefix; no error iff the whole frame was there, in which case frame and rest make up the stream |
| Rpc3Tcp.ReadMsg | micro/rpc3/tcp.go:8-24 | the data, error and remaining stream are ReadFrame's; nothing else changes |
| Rpc3Tcp.ReadBody | micro/rpc3/tcp.go:17-23 | the frame buffer is the prefix, the delivered bytes and zeros up to the announced length |
| Rpc3Tcp.ReadsAnnouncedFrame | micro/rpc3/tcp.go:8-24 | a stream starting with a frame that announces its own length yields exactly that frame and leaves what follows |
| Rpc2Tcp.EncodeMsg | micro/rpc2/tcp.go:19-26 | 8 + len(data) bytes: the uint64 length, then the data |
| Rpc2Tcp.ReadFrame | micro/rpc2/tcp.go:8-17 | no data iff the length cannot be read; otherwise exactly as many bytes as announced; no error iff they were all there |
| Rpc2Tcp.ReadMsg | micro/rpc2/tcp.go:8-17 | the data, error and remaining stream are ReadFrame's |
| Rpc2Tcp.ReadPayload | micro/rpc2/tcp.go:14-16 | the payload buffer is the delivered bytes padded with zeros to the length |
| Rpc2Tcp.ReadEncodedMsg | micro/rpc2/tcp.go:8-26 | ReadMsg of what EncodeMsg produced yields the payload and leaves the bytes after it |
| Server.NotSupportedSerializerNamesCode | micro/rpc3/server.go:125 | the unsupported-serializer error tells the codes apart: equal texts mean equal codes |
| Server.StubInvoke | micro/rpc3/server.go:118-154 | unknown serializer: its error; decode failure: that error; nil result: no data and the method's error; encode failure: that error; otherwise the encoded result and the method's error |
| Server.Invoke | micro/rpc3/server.go:88-110 | the response echoes id, version, compressor and serializer; an unknown service gives "service not available" and no data; a known one gives the stub's data and error |
| Server.Answer | micro/rpc3/server.go:71-79 | the response written for a request carries Invoke's error as Error and Invoke's data, with both lengths calculated |
| Server.HandlerReplies | micro/rpc3/server.go:70-81 | the server's handler serves every servable frame with Reply |
| Server.SessionOfOneFrame | micro/rpc3/server.go:63-86 | a stream of one servable frame: its reply is written, then the loop ends with EOF |
| Server.SessionAdvance | micro/rpc3/server.go:64-85 | after one served frame the loop goes on with the rest of the stream, the reply appended to what was written |
| Server.ServeFrame | micro/rpc3/server.go:71-81 | one round of handleConn (decode, invoke, record the error, calculate the lengths, encode) gives Reply |
| Server.ServeConn | micro/rpc3/server.go:63-86 | the output grows by the replies to the frames read, in order, and the error returned is the first read or write error (Session) |
| Server.Server.constructor | micro/rpc3/server.go:23-30 | NewServer: no services, JSON under its code |
| Server.Server.RegisterSerializer | micro/rpc3/server.go:32-34 | the serializer under its code, replacing an earlier one; services unchanged |
| Server.Server.RegisterService | micro/rpc3/server.go:36-42 | the service under its name, replacing an earlier one; serializers unchanged |
| Server.Server.HandleConn | micro/rpc3/server.go:63-86 | the connection loop with this server's registries writes Session's bytes and returns its error |
| Client.StubRequest | micro/rpc3/client.go:56-72 | the stub's request: service and field name, encoded argument, serializer code, one-way meta only for a one-way call, both lengths calculated |
| Client.CallStub | micro/rpc3/client.go:45-111 | encode or proxy error: zero result and that error; a non-empty Error becomes the error; non-empty Data is decoded into the result, a decode error replacing the error |
| Client.SetFuncField | micro/rpc3/client.go:26-117 | nil service and non-struct-pointer errors; otherwise every settable field, and only those, gets a stub bound to its name, the struct's name, the serializer and the proxy |
| Client.Client.NewClient | micro/rpc3/client.go:132-161 | a pool error is returned; otherwise JSON, replaced by the last serializer option |
| Client.Client.Send | micro/rpc3/client.go:172-193 | the pool error, else the write error, else "micro: oneway" for a one-way call, else ReadMsg's result |
| Client.Client.Invoke | micro/rpc3/client.go:163-170 | a Send error is returned as is; otherwise the decoded response |
| Client.Client.InitService | micro/rpc3/client.go:22-24 | setFuncField with this client as the proxy and its serializer |
| Client.OnewayCallFails | micro/rpc3/client.go:187-189 | a one-way call ends with the zero result and "micro: oneway" whatever the peer would answer |
| EndToEnd.RequestFrameIsRead | micro/rpc3/tcp.go:8-24 | the server's ReadMsg reads back exactly the frame EncodeReq produced |
| EndToEnd.ResponseFrameIsRead | micro/rpc3/tcp.go:8-24 | the client's ReadMsg reads back exactly the frame EncodeResp produced |
| EndToEnd.ServerAnswersOneFrame | micro/rpc3/server.go:63-86 | a connection holding one request frame gets the encoded answer, then the loop ends with EOF |
| EndToEnd.ServerReplies | micro/rpc3/server.go:63-86 | the server can serve a well-formed request frame, and its reply decodes to the answer |
| EndToEnd.InvokeReturnsAnswer | micro/rpc3/client.go:163-193 | Client.Invoke over a connection to the server returns exactly the server's answer |
| EndToEnd.StubGetsAnswer | micro/rpc3/client.go:71-74 | a bound stub's proxy returns the server's answer to the stub's request |
| EndToEnd.CallReturnsMethodResult | micro/rpc3/client_e2e_test.go:30-73 | a call returns the method's result and error, both kept; a nil result arrives as the zero value |
| EndToEnd.CallToUnknownService | micro/rpc3/server.go:99-101 | a call to an unregistered service gives the zero result and "service not available" |
| EndToEnd.CallWithUnsupportedSerializer | micro/rpc3/server.go:123-126 | a call with an unregistered serializer code gives the zero result and the error naming that code |
| Pool.LeadingExpired | micro/net/pool/pool.go:67-80 | how many idle connections at the head of the queue have expired: all before it, not the one at it |
| Pool.WarmUp | micro/net/pool/pool.go:29-38 | Ok iff the first InitCnt factory calls all succeed, with those connections in order; otherwise the first error |
| Pool.FirstFailure | micro/net/pool/pool.go:30-33 | the warm-up reports the first factory error |
| Pool.Pool.constructor | micro/net/pool/pool.go:39-44 | the pool's limits, the warmed-up idle queue, no connections counted and no waiters |
| Pool.Pool.NewPool | micro/net/pool/pool.go:23-46 | InitCnt > MaxIdleCnt is refused, whatever their signs; otherwise InitCnt connections stamped now, or the first factory error (a negative MaxIdleCnt past the check is the `make` panic, a precondition) |
| Pool.Pool.TakeIdle | micro/net/pool/pool.go:66-80 | closes the expired head of the queue and returns the first live connection, or none with the queue emptied; nothing else changes |
| Pool.Pool.Get | micro/net/pool/pool.go:65-109 | returns the first live idle connection without the lock; with none, takes the lock (it must not be left held), then queues a waiter at maxCnt, or dials, counting only a connection made; a factory error leaves the lock held; the bounds are kept |
| Pool.Pool.GetUnlocking | micro/net/pool/pool.go:65-109 | Get with the lock released on a factory error: the same outcomes, and the pool is never left locked |
| Pool.FailedDialLeavesPoolLocked | micro/net/pool/pool.go:102-105 | with no idle connection, room to dial and a failing factory, Get returns the error and leaves the pool locked, so no later Put can return |
| Pool.FailedDialThenPut | micro/net/pool/pool.go:102-119 | with the lock released, the same failed dial is followed by a Put that stores the connection as idle |
| Pool.Pool.Put | micro/net/pool/pool.go:111-136 | hands the connection to the most recently queued waiter, else queues it stamped now if there is room, else closes it and decrements cnt; the bounds are kept |
| Expiry.DeadlineFor | cache/local/v3/local_cache.go:74-78 | with expiration > 0 the deadline is now + expiration; otherwise it is the zero time |
| Expiry.SetEntryExpiry | cache/local/v3/local_cache.go:129-131 | an entry set at now with a given expiration has expired at t iff the expiration is positive and now + expiration < t (the same rule is cache/v2_1/localcache.go:108-110) |
| Expiry.Visited | cache/local/v3/local_cache.go:48-57 | a sweep looks at no more than 10001 entries, taken in the map's iteration order |
| Expiry.EvictionsAreExpired | cache/local/v3/local_cache.go:49-57 | a sweep evicts exactly the visited entries that have expired, each with its stored value |
| Expiry.SweptRemovesEvicted | cache/local/v3/local_cache.go:53-55 | a key leaves the map in a sweep iff the callback is called with it and its value; the entries left are unchanged |
| Expiry.EvictionsOncePerKey | cache/local/v3/local_cache.go:49-57 | the callback fires at most once per key and no more often than entries are visited |
| Expiry.SweptStep | cache/local/v3/local_cache.go:49-57 | the entry a sweep reaches is still there unchanged, and is removed exactly when it has expired |
| CacheV3.KeyNotFound | cache/local/v3/local_cache.go:98 | the error wraps errKeyNotFound and ends with the key |
| CacheV3.KeyNotFoundInjective | cache/local/v3/local_cache.go:98 | different keys give different errors |
| CacheV3.LocalCache.constructor | cache/local/v3/local_cache.go:32-40 | an empty cache, with or without an eviction callback |
| CacheV3.LocalCache.Evict | cache/local/v3/local_cache.go:133-140 | delete: a present key is removed and the callback called with it and its value; an absent key changes nothing |
| CacheV3.LocalCache.Set | cache/local/v3/local_cache.go:74-88 | the key maps to the value with DeadlineFor(now, expiration), replacing any entry without a callback; returns nil |
| CacheV3.LocalCache.Get | cache/local/v3/local_cache.go:93-120 | missing key: wrapped errKeyNotFound, nothing changes; expired key: removed, callback called, same error; live key: its value, nothing changes |
| CacheV3.LocalCache.Delete | cache/local/v3/local_cache.go:122-127 | the key is gone, present or not, no callback, nil error |
| CacheV3.LocalCache.LoadAndDelete | cache/local/v3/local_cache.go:159-168 | a present key: its value, removed, callback called; an absent key: the unwrapped errKeyNotFound, nothing changes |
| CacheV3.LocalCache.Sweep | cache/local/v3/local_cache.go:46-58 | the map becomes Swept over the visited keys and the callback log grows by exactly Evictions, in visiting order |
| CacheV21.LocalCache.constructor | cache/v2_1/localcache.go:23-27 | an empty cache |
| CacheV21.LocalCache.Set | cache/v2_1/localcache.go:55-67 | the key maps to the value with DeadlineFor(now, expiration), replacing any entry |
| CacheV21.LocalCache.Get | cache/v2_1/localcache.go:72-99 | missing key: "key not found", unchanged; expired key: deleted, "key expired"; live key: its value, unchanged |
| CacheV21.LocalCache.Delete | cache/v2_1/localcache.go:101-106 | the key is gone, present or not, nil error |
| CacheV21.LocalCache.Sweep | cache/v2_1/localcache.go:33-45 | the map becomes Swept over the visited keys: the expired ones among the first 10001 are deleted, the rest are unchanged |
| AnyValue.String | cache/v1/cache.go:24-33 | Err first, whatever Val is; then Val if it is a string; otherwise the conversion error; "" whenever it fails |
| AnyValue.Bytes | cache/v1/cache.go:35-44 | Err first; then Val if it is a []byte; otherwise the conversion error; nil whenever it fails |
| AnyValue.BindJson | cache/v1/cache.go:46-55 | Err first; then the conversion error for a non-[]byte Val; only then what unmarshalling gives |
| AnyValue.AccessorsSucceedOnTheirType | cache/v1/cache.go:24-44 | String and Bytes succeed iff there is no Err and Val has their type |
| AnyValue.StoredErrorFirst | cache/v1/cache.go:24-55 | with Err set, all three accessors report it |
| AnyValue.BindJsonIsBytesThenUnmarshal | cache/v1/cache.go:35-55 | BindJson fails as Bytes fails, and otherwise unmarshals what Bytes returns |

## Left out

- Sockets, listening, accepting and dialling (`Server.Start`, `net.DialTimeout`) are I/O. A connection is the `Conn` class, or the `Link` value on the client side.
- A read is satisfied in full, or delivers what is left of the stream and reports EOF. Short reads that return fewer bytes without an error are not modelled.
- Reflection is replaced by tables. A service is its name and a map from method name to a function. A service struct is a class with a field list. `reflect.MakeFunc` closures are `Stub` values.
- The service values are a stand-in datatype `Value`. The JSON and proto serializers are not part of this model: a serializer is a code and two functions.
- The request context is reduced to a one-way flag. `isOneway` and `CtxWithOneway` are not part of this model.
- Client.SetFuncField: every field of a service struct is taken to be a function field. Go's `reflect.MakeFunc` panics on a settable field of another type, and the model does not express that panic.
- Client.CallStub: on a decode error the Go stub returns the partly filled `retVal`. The model returns the zero value.
- Client.Client.Send: the silenceper pool the client draws from is not modelled. Every call uses the client's fixed `Link`, and closing the connection after the call is not recorded.
- Server.ServeConn: the loop is proved for any handler, and `HandleConn` runs it with the server's. The per-frame body is `ServeFrame`, proved to give `Reply`. The loop calls the handler's reply function, which equals `Reply` on every servable frame.
- Server.ServeConn: a connection's read error and write error hold from its first call. A connection whose writes fail only after k replies, or whose reads fail with an error other than EOF after k frames, is not expressed; the first error the loop meets is still the one it returns.
- Server.Server.HandleConn: a read or write error is returned, and the caller's `conn.Close()` is not modelled. Its connection errors hold from the first call, as for Server.ServeConn.
- Pool concurrency is not modelled: the mutex between callers, blocking on a waiter's channel, context cancellation and the goroutine that hands a cancelled waiter's connection back. A waiter left queued is the `Waiting` outcome. `Put` records the handoff to it in `handoffs`.
- A mutex left held is the `locked` flag. `Put`, and `Get` when it finds no live idle connection, require it clear, since in Go they would block on `p.mu.Lock()` for good (pool.go:83, pool.go:112).
- Pool.Pool.NewPool: every warm-up connection is stamped with the same `now`.
- The factory's outcome and the clock are parameters of `Get` and `NewPool`.
- The caches' ticker goroutines, `Close`/`closeOnce` and the RW locks are not modelled. The sweep is a method that one tick calls.
- The double-check re-read under the write lock in both `Get` functions is not modelled, since it only matters with concurrent writers.
- Request.WriteMeta: Go ranges over the Meta map, so the pairs go on the wire in a random order. The model keeps meta as a list of distinct keys and writes it in list order. The round trip holds for any order.
- Go's random map iteration order is a parameter of the sweep. It is any order that visits each key once.
- The v3 cache's eviction callback is a log of its calls. A cache without one would panic on an eviction. The operations that could evict require a callback when they would evict.
- AnyValue.BindJson: `json.Unmarshal` is a function given to it. Its result stands for what it writes into the target, and a partial write on failure is not modelled.
- `cache/local/v3/max_cnt_cache.go`, `cache/v2_0`, the Redis cache and the earlier RPC iterations are not part of this model.

## Findings

| source | as written | input that shows it | evidently intended | confidence | as-written member | corrected member |
|---|---|---|---|---|---|---|
| micro/net/pool/pool.go:102-105 | Get returns the factory error without `p.mu.Unlock()`, after taking the lock at line 83 | maxCnt 1, no idle connection, cnt 0, a factory that fails: Get returns the error, then every Put blocks at line 112 and every Get with an empty idle queue blocks at line 83 | release the lock before returning the error, as line 107 does on success | not executed | Pool.FailedDialLeavesPoolLocked | Pool.Pool.GetUnlocking |
