# rapscallion in Dafny

A model of the core of rapscallion, a small C++ remote-procedure-call library:

- its wire codec;
- the packet framing around it;
- the correlation of calls with replies;
- the routing of packets to interfaces;
- the double-buffered write path of a connection.

Everything is modelled as pure functions over byte sequences (`seq<Byte>`, `Byte` being `0..255`) and immutable state records. The properties are proved as contracts and lemmas.

Modules, following the source:

- `Base`: bytes, the library's exceptions as an `Error` datatype, the `Read` outcome of a read (value and remaining bytes, or exception and remaining bytes), and small sequence helpers.
- `Codec`: the scalar serializers of src/serializer.cpp.
  - Unsigned integers are LEB128-style varints, least significant group first.
  - `long` and `int` are sign-magnitude (`|v| << 1 | sign`), which is not zigzag.
  - Strings are a length and then raw bytes; `bool` is the varint 0 or 1.
- `Composite`: `optional`, `std::vector` and `std::shared_ptr` on top of the scalars. The layout is a presence flag or a count, then the elements. A handler's arguments are a sequence of such values.
- `FloatRepr`: the integer-only `float_repr` layer under `double`.
  - The exponent word carries the sign and a type tag; the 64-bit fraction is bit-reversed before it is written.
  - Special values use exponent words −2…2; Normal values use every other word.
- `Prefix`: the packet length prefix.
  - It is base-128, most significant group first: the opposite order to value varints.
  - It is written backwards into the 8 bytes of headroom at the front of every serializer.
  - The module also has the receiver's scan of the prefix.
- `Frame`: `Serializer` and `Deserializer` of include/RaPsCallion/Serializer.h. Covers `addByte`, the run-once `finalize`, `data`/`size`, the bounds-checked `getByte`/`getByteRange`, `AddBytes`, `HasFullPacket` and `RemovePacket`.
- `Reader`: the pointer-based framing of include/RaPsCallion/serializer.h and of the older include/serializer.h. Covers `data()` without a guard, the two constructors, and `PacketSize`.
- `Proxy`: `ProxyBase` of include/RaPsCallion/Proxy.h.
  - Request ids count up from 0.
  - Each call registers a pending callback; a reply's id selects and removes the callback.
  - A disconnect breaks every waiting promise.
  - Also the request layout `[interface][method][request id][arguments…]`.
- `Dispatch`: `DispatcherBase` of include/RaPsCallion/Dispatcher.h.
  - `interfaceNameOf` strips the leading digits of the mangled name.
  - The method table selects a handler; a handler reads the request id, then its arguments.
  - The reply is `["p"+interface][request id][result]`.
- `Host`: `RpcHost`, the server's registry.
  - Every connected handle is sent every registered interface exactly once.
  - A packet goes to the first interface with its name.
- `Legacy`: the older include/proxydispatcher.h.
  - `interfaceNameOf` without an end-of-string check.
  - A proxy with no connection refuses calls, and requests are tagged `"d"`+name.
  - "Connection Lost" on disconnect.
  - `getProxyFor`'s proxy cache, and the dispatcher registration of `REGISTER`.
- `Client`: `RpcClient`.
  - The receive loop handles and drops complete frames in order. It runs the frame test as written, and stops with `Overran` where the source would read past the received bytes.
  - Routing goes to the first proxy of a name.
  - `Get`, the disconnecting destructor and `Send`.
- `WritePath`: the write side of `Connection` in include/RaPsCallion/Connection.h.
  - Packets are staged into one buffer while the other is on the wire.
  - At most one transmission is in flight.
  - Bytes leave in the order they were written.
- `Rpc`: the `client` of the two `rpc.h` drafts: call ids from 1, weak result references, `request_value` and `drop_request`.

Mutex sections are atomic steps, and so are the disconnect paths that take no lock (see "## Left out"). The socket is abstract: the write path records the chunks it hands over, the receive loop is given the bytes that arrived, and a server handle is identified by its index. A promise is `Pending`, `Fulfilled(value)` or `Broken(error)`. The implementations behind a dispatcher's handlers are not modelled: `Handle` ends with the call it would make (`Invoked`), and `Reply` takes the result as an input.

Where the test suite and the code disagree, the model follows the code. test/serializer.cpp:35-39 expects the special floating-point values (infinities, NaN, zeros) to take two bytes. src/serializer.cpp:68 writes their exponent word as one varint of magnitude at most 2, which is a single byte. `FloatRepr.WriteFloat` and `FloatRepr.ConcreteVectors` state the one byte.

## Model

| member | source | states |
|---|---|---|
| Base.FirstIndexOf | include/RaPsCallion/RpcHost.h:40-45 | the scan for an interface name finds the first entry with that name, and none exactly when no entry has it |
| Codec.WriteU64 | src/serializer.cpp:9-15 | a varint is at least one byte; every byte but the last has 0x80 set and the last has not; it is one byte exactly when the value is below 128 |
| Codec.WriteU64Length | src/serializer.cpp:9-15 | a value below 128^k takes at most k bytes |
| Codec.ReadGroupsStops | src/serializer.cpp:146-157 | the read runs out of bytes exactly when every byte has the continuation bit; otherwise it consumes up to and including the first byte without it |
| Codec.ReadU64 | src/serializer.cpp:146-157 | the read yields a 64-bit value, consumes the same bytes as the group scan, and throws "Exceeded packet size" when the bytes run out |
| Codec.U64RoundTrip | src/serializer.cpp:146-157 | reading back what `write` emitted for a 64-bit value gives the value and leaves exactly the bytes after it |
| Codec.SignMagnitude | src/serializer.cpp:16-19 | the word for a `long` other than LONG_MIN is odd exactly when the value is negative, its half is the magnitude, and it fits in 64 bits |
| Codec.WriteLong | src/serializer.cpp:16-19 | what is written for a `long` other than LONG_MIN reads back as that `long` and consumes every byte written |
| Codec.ReadLong | src/serializer.cpp:158-163 | a `long` read gives a value in the `long` range, consumes what the varint read consumes, and fails exactly when that read fails |
| Codec.LongRoundTrip | src/serializer.cpp:158-163 | every `long` except LONG_MIN reads back as itself, followed by the untouched rest |
| Codec.ToInt | src/serializer.cpp:164-166 | the conversion of `long` to `int` yields an `int` and is the identity on values that fit |
| Codec.WriteInt | src/serializer.cpp:20-22 | what is written for an `int` reads back as that `int` and consumes every byte written |
| Codec.ReadInt | src/serializer.cpp:164-166 | an `int` read gives an `int`, consumes what the varint read consumes, and fails exactly when it fails |
| Codec.IntRoundTrip | src/serializer.cpp:20-22 | every `int` reads back as itself, followed by the untouched rest |
| Codec.ReadString | src/serializer.cpp:167-175 | a string read fails exactly when the length read fails or the length exceeds the remaining bytes; on success it returns exactly `length` bytes that, followed by the rest, are what follows the length; a length beyond the remaining bytes throws "buffer underrun" with the cursor just after the length |
| Codec.WriteString | src/serializer.cpp:23-26 | what is written for a string shorter than 2^64 reads back as the same bytes and consumes every byte written |
| Codec.StringRoundTrip | src/serializer.cpp:23-26 | a written string reads back as the same bytes, advancing by exactly its length |
| Codec.StringUnderrun | src/serializer.cpp:168-172 | a declared length larger than the remaining bytes throws "buffer underrun" and leaves the cursor after the length |
| Codec.WriteBool | src/serializer.cpp:27-29 | a `bool` is the single byte 0 or 1 |
| Codec.ReadBool | src/serializer.cpp:176-178 | a `bool` read is true exactly when the varint is nonzero |
| Codec.BoolRoundTrip | src/serializer.cpp:27-29 | both `bool` values read back as themselves |
| Composite.DecodeEmpty | include/RaPsCallion/Serializer.h:47-50 | on an empty window every type's read throws "Exceeded packet size", because each starts with `getByte` |
| Composite.Encode | include/RaPsCallion/Serializer.h:103-158 | whatever follows a written value, the matching read gives the value back and leaves exactly what followed; this holds for every type, with optional, vector and shared_ptr nested freely |
| Composite.EncodeItems | include/RaPsCallion/Serializer.h:125-130 | the elements of a vector, written one after the other, are read back in order by the count-driven loop, which leaves exactly what followed |
| Composite.EncodeArgs | include/RaPsCallion/Proxy.h:105-112 | arguments written in declaration order are read back in declaration order by the matching types, leaving exactly what followed |
| Composite.Decode | include/RaPsCallion/Serializer.h:113-157 | a read only moves the cursor forward, by at least one byte when it succeeds, and every value it yields is one the writer accepts back: each count and length fits 64 bits and no `long` is LONG_MIN |
| Composite.DecodePresent | include/RaPsCallion/Serializer.h:113-120 | the value is present exactly when the flag reads true (any nonzero word); a present value is one the writer accepts; the cursor only moves forward, by at least the flag |
| Composite.DecodeItems | include/RaPsCallion/Serializer.h:131-139 | a completed loop yields exactly `count` elements, each one the writer accepts; the cursor only moves forward |
| Composite.PresentReads | include/RaPsCallion/serializer.h:104-120 | a presence flag of false reads back as absent, and a flag of true followed by a value reads back as that value, for both `optional` and `shared_ptr` |
| Composite.VectorReads | include/RaPsCallion/serializer.h:122-139 | a vector written as its count and then its elements reads back as the same elements in order |
| Composite.ItemsReads | include/serializer.h:107-127 | one turn of the vector read loop: the first element read from its bytes, then the others from theirs, gives the whole vector in order |
| FloatRepr.BitReverse | src/serializer.cpp:47-56 | `bitreverse` moves bit i to bit 63−i |
| FloatRepr.BitReverseInvolution | src/serializer.cpp:47-56 | reversing twice gives the original word |
| FloatRepr.Half | src/serializer.cpp:90-93 | C++ division by 2 truncates toward zero, on negative exponents too |
| FloatRepr.HalfRem | src/serializer.cpp:90-91 | the truncating remainder is −1, 0 or 1, and it rebuilds the dividend with the quotient |
| FloatRepr.ExponentWord | src/serializer.cpp:63-77 | the exponent word is outside −2…2 exactly for Normal values; a special value's word is its type code, negated for a negative sign |
| FloatRepr.WriteFloat | src/serializer.cpp:61-82 | a special value (NaN, infinity, zero) is written as one byte |
| FloatRepr.ReadFloat | src/serializer.cpp:83-98 | a read NaN is never negative, the exponent read is an `int`, and the read fails only when the word read fails or a Normal value's fraction read fails |
| FloatRepr.Canonical | src/serializer.cpp:86-88 | reading keeps a Normal value entirely, keeps every type, and keeps the sign of everything except NaN |
| FloatRepr.NormalWordRoundTrip | src/serializer.cpp:73-77 | the exponent word of a Normal value decodes back to the same exponent and sign |
| FloatRepr.FloatRoundTrip | src/serializer.cpp:61-98 | every writable repr reads back as its canonical form |
| FloatRepr.NormalRoundTrip | src/serializer.cpp:71-96 | a Normal repr keeps its exponent, sign and fraction through write and read |
| FloatRepr.SpecialRoundTrip | src/serializer.cpp:63-70 | zero and infinity keep their type and sign, and NaN reads back as positive NaN |
| FloatRepr.NormalSize | src/serializer.cpp:71-79 | a Normal repr with exponent within ±1074 and the low 11 fraction bits clear takes at most 10 bytes |
| FloatRepr.WordSize | src/serializer.cpp:73-77 | the exponent word of such a repr takes at most 2 bytes |
| FloatRepr.FractionSize | src/serializer.cpp:75-78 | the reversed fraction of such a repr takes at most 8 bytes |
| FloatRepr.ConcreteVectors | src/serializer.cpp:68-78 | {exponent 1, fraction 2^63, +} is `0A 01`, {exponent −1, fraction 2^63, +} is `09 01`, +infinity is `02`, and NaN is `00` |
| Prefix.Groups | include/RaPsCallion/Serializer.h:30-35 | the last group written holds the low seven bits (plus the mask), and there is one group exactly when the length is at most 127 |
| Prefix.GroupsFlagged | include/RaPsCallion/Serializer.h:30-35 | every group before the last has 0x80 set |
| Prefix.LengthPrefix | include/RaPsCallion/Serializer.h:27-35 | the prefix ends with the one byte that has no continuation bit |
| Prefix.GroupsLength | include/RaPsCallion/Serializer.h:30-34 | a length below 128^k takes at most k groups |
| Prefix.PrefixFitsHeadroom | include/RaPsCallion/Serializer.h:27-35 | a payload shorter than 2^56 gets a prefix of at most 8 bytes, which fits the headroom |
| Prefix.ParseFrom | include/RaPsCallion/Serializer.h:62-69 | a successful scan leaves a strict suffix of the bytes it was given |
| Prefix.ParseIncomplete | include/RaPsCallion/Serializer.h:62-71 | the scan finds no end exactly when every byte has the continuation bit |
| Prefix.ParseTruncate | include/RaPsCallion/Serializer.h:62-67 | the scan never looks past the end of the prefix, so cutting the bytes after it changes only the remainder |
| Prefix.ParseStopsLikeVarint | include/RaPsCallion/serializer.h:42-43 | the prefix scan stops where the varint group scan stops, so the skip loop lands on the payload |
| Prefix.AccumulateGroups | include/RaPsCallion/Serializer.h:63 | accumulating groups most-significant-first gives back the length they were written from |
| Prefix.ParseLengthPrefix | include/RaPsCallion/Serializer.h:60-69 | scanning a written prefix followed by anything yields the length and exactly the bytes after the prefix |
| Prefix.Place | include/RaPsCallion/Serializer.h:27-35 | the prefix starts at index 7 or earlier and ends exactly at index 7 |
| Prefix.PlacedFrame | include/serializer.h:43-54 | the bytes from the prefix start are the prefix of the payload length followed by the payload, and they scan back to that length and payload |
| Prefix.PlaceIdempotent | include/RaPsCallion/serializer.h:21-32 | writing the prefix a second time changes neither the bytes nor the start |
| Prefix.WritePrefix | include/RaPsCallion/Serializer.h:27-35 | the backward loop writing groups from index 7 produces exactly the placed prefix and start |
| Prefix.PacketSize | include/RaPsCallion/serializer.h:60-69 | `PacketSize` is −1 when the prefix is incomplete or the offset is at the end, and otherwise the announced payload length |
| Frame.NewSerializer | include/RaPsCallion/Serializer.h:16-20 | a new serializer has 8 bytes of headroom, an empty payload, and is not finalised |
| Frame.AddByte | include/RaPsCallion/Serializer.h:21 | `addByte` appends exactly one byte to the payload and leaves the headroom alone |
| Frame.Finalize | include/RaPsCallion/Serializer.h:25-36 | the first `finalize` makes the frame the length prefix followed by the payload, which scans back to both; later calls change nothing |
| Frame.Data | include/RaPsCallion/Serializer.h:22 | `data()` finalises the serializer; for an unfinalised one it points into the 8 bytes of headroom, where the length prefix begins and is followed by the payload up to the end of the buffer |
| Frame.Size | include/RaPsCallion/Serializer.h:23 | `size()` finalises the serializer; for an unfinalised one it is the length of the prefix plus the length of the payload |
| Frame.DataSizeFrame | include/RaPsCallion/Serializer.h:22-26 | `data()` and `size()` span exactly prefix + payload, and asking again returns the same state and range |
| Frame.AddAfterFinalize | include/RaPsCallion/Serializer.h:16-26 | a byte added after `finalize` is not announced: the kept prefix states a length one short of the payload |
| Frame.EmptyDeserializer | include/RaPsCallion/Serializer.h:41 | the default deserializer has an empty window |
| Frame.GetByte | include/RaPsCallion/Serializer.h:47-50 | `getByte` throws "Exceeded packet size" exactly at the end of the window; otherwise it yields the window's first byte and advances by one, never past `size` |
| Frame.GetByteRange | include/RaPsCallion/Serializer.h:51-56 | `getByteRange(n)` throws exactly when fewer than n bytes remain; otherwise it yields the next n bytes and advances by n |
| Frame.GetBytesIsRange | include/RaPsCallion/Serializer.h:51-56 | n single-byte reads agree with one `getByteRange(n)`, in bytes, position and exception |
| Frame.AddBytes | include/RaPsCallion/Serializer.h:57-59 | `AddBytes` appends exactly the given bytes and leaves the read window unchanged |
| Frame.RemovePacket | include/RaPsCallion/Serializer.h:73-76 | `RemovePacket` drops the first `size` bytes and keeps the rest in order |
| Frame.RemoveAfterAdd | include/RaPsCallion/Serializer.h:57-76 | appending and then removing the front packet is removing and then appending |
| Frame.HasFullPacket | include/RaPsCallion/Serializer.h:60-72 | as written: after the scan `offs` is past the prefix and `size` at the frame's end, and the answer is true exactly when the buffer is at least as long as the payload alone |
| Frame.HasFullPacketFixed | include/RaPsCallion/Serializer.h:60-72 | as intended: true exactly when the whole payload follows the prefix, and then the window is exactly the payload |
| Frame.FixedIsWrittenInBounds | include/RaPsCallion/Serializer.h:60-72 | both tests scan the prefix to the same state; the intended test accepts exactly when the test as written accepts and the announced frame ends within the buffer |
| Frame.IncompletePrefix | include/RaPsCallion/Serializer.h:62-71 | both versions say no while no byte without the continuation bit has arrived |
| Frame.FramedPacket | include/RaPsCallion/Serializer.h:60-69 | on a written frame, possibly followed by more bytes, both versions accept; `offs` is at the payload, `size` at the frame's end, and the window is the payload |
| Frame.RemoveFramedPacket | include/RaPsCallion/Serializer.h:73-76 | removing an accepted frame leaves exactly the bytes that followed it |
| Frame.HasFullPacketAcceptsBarePrefix | include/RaPsCallion/Serializer.h:66-67 | the buffer `[0x01]`, a prefix without its payload, is accepted as written with a window past the buffer's end, and rejected by the intended test |
| Frame.FromSerializer | include/RaPsCallion/Serializer.h:42-46 | the constructor finalises its argument in place (the buffer and `offs` are `mutable`), so the finalised serializer is returned with the deserializer, which holds exactly the frame `data()` and `size()` expose |
| Frame.FromSerializerReadsPayload | include/RaPsCallion/Serializer.h:42-46 | that deserializer's window is exactly the payload that was written |
| Reader.Data | include/RaPsCallion/serializer.h:21-32 | `data()` returns a start at index 7 or earlier and a length reaching the buffer's end; the bytes there are the prefix of the payload length followed by the untouched payload |
| Reader.DataDeterministic | include/RaPsCallion/serializer.h:21-32 | calling `data()` twice without `addByte` gives the same bytes and range |
| Reader.Open | include/RaPsCallion/serializer.h:38-47 | the constructor throws "Packet exceeds buffer size" exactly when the announced payload overruns the buffer; otherwise the pointer is at the payload start and `end - ptr` is the payload length |
| Reader.OpenUnchecked | include/serializer.h:12-19 | on a complete frame the older constructor's window is exactly the announced payload |
| Reader.SkipPrefix | include/RaPsCallion/serializer.h:42-43 | the skip loop stops one past the first byte without the continuation bit, where the prefix scan ends |
| Reader.OpenData | include/RaPsCallion/serializer.h:21-47 | opening the frame `data()` exposes, at the start it reports, reads exactly the payload |
| Reader.OpenAtTestOffset | test/serializer.cpp:12-14 | the test's construction at `buffer.size() - data().second` gives `end - ptr` equal to the payload length and a window equal to the payload |
| Reader.FromSerializer | include/RaPsCallion/serializer.h:49-54 | the constructor from a serializer reads from index 8 to the buffer's end without parsing a prefix |
| Reader.FromSerializerIgnoresPrefix | include/RaPsCallion/serializer.h:49-54 | what it reads is the same whether or not `data()` has written the prefix |
| Proxy.NewProxy | include/RaPsCallion/Proxy.h:88-91 | a new proxy starts at request id 0 with nothing pending, connected, and satisfies the table invariant |
| Proxy.GetRequestId | include/RaPsCallion/Proxy.h:55-58 | `getRequestId` returns the counter and increments it; the id has no promise or callback yet |
| Proxy.RequestIdsIncrease | include/RaPsCallion/Proxy.h:55-58 | successive ids are the counter's values in order: consecutive, distinct and strictly increasing |
| Proxy.FirstIds | include/RaPsCallion/Proxy.h:90 | a new proxy hands out 0, 1, 2, … |
| Proxy.GetFutureFor | include/RaPsCallion/Proxy.h:59-71 | `getFutureFor` adds exactly one pending entry under the id, with an unset promise, and changes no other entry |
| Proxy.FreshFuture | include/RaPsCallion/Proxy.h:55-71 | a fresh id plus `getFutureFor` grows both tables by exactly one and keeps the invariant |
| Proxy.Resolve | include/RaPsCallion/Proxy.h:63-69 | a callback always settles its promise: the value when the read succeeds, and the read's exception, caught, when it throws |
| Proxy.Dispatch | include/RaPsCallion/Proxy.h:73-87 | an unknown id changes nothing; a known id's entry alone is erased and its promise settled from the rest of the reply; all other entries are unchanged (include/proxydispatcher.h:86-100 does the same) |
| Proxy.DispatchReply | include/RaPsCallion/Proxy.h:73-87 | a reply with a pending id and a value of the awaited type fulfils that promise with that value |
| Proxy.DispatchOnce | include/RaPsCallion/Proxy.h:83-86 | a second reply with the same id finds no callback, so each callback runs at most once and a settled promise stays settled |
| Proxy.SignalDisconnect | include/RaPsCallion/Proxy.h:46-53 | every waiting promise breaks with "Exceeded packet size"; settled promises are kept; the table is emptied and `conn` nulled |
| Proxy.DisconnectOnce | include/RaPsCallion/Proxy.h:46-53 | a second disconnect changes nothing |
| Proxy.DisconnectBreaks | include/RaPsCallion/Proxy.h:47-49 | feeding any callback the empty deserializer breaks its promise with "Exceeded packet size" |
| Proxy.Call | include/RaPsCallion/Proxy.h:95-104 | a call takes the next id, adds exactly a pending callback for the return type and a pending promise under that id while the other entries, the name and the connection stay as they were, and sends a payload that reads back as interface name, method name, id and the arguments |
| Proxy.RequestPayload | include/RaPsCallion/Proxy.h:95-112 | the request bytes read back field by field as `[interface][method][request id][arguments in order]` with nothing left over |
| Dispatch.InterfaceNameOf | include/RaPsCallion/Dispatcher.h:22-26 | the interface name is a suffix of the mangled name; everything stripped is `<= '9'` as a signed `char`; the result is empty or starts with a character above '9' |
| Dispatch.AllLeadingIsEmpty | include/RaPsCallion/Dispatcher.h:24 | a name made only of such characters becomes empty, because the loop stops at the end of the string |
| Dispatch.Handle | include/RaPsCallion/Dispatcher.h:31-38 | an unknown method name calls nothing; a known one calls exactly its handler, which reads the request id and then its arguments in declaration order from the rest (the lookup of include/proxydispatcher.h:164-171 is the same) |
| Dispatch.HandleCall | include/RaPsCallion/Dispatcher.h:43-45 | a handler is called with exactly the request id and arguments the caller wrote, whatever follows them |
| Dispatch.HandleDecoded | include/RaPsCallion/Dispatcher.h:36-45 | bytes that read back as method name, id and a handler's arguments call that handler with them |
| Dispatch.RequestDecoded | include/RaPsCallion/Dispatcher.h:31-45 | a request that reads back as tag, method name, id and arguments gives the tag first, and the rest calls that method's handler with that id and those arguments |
| Dispatch.HandleUnknown | include/RaPsCallion/Dispatcher.h:33-35 | an unknown method name calls no handler, whatever follows it |
| Dispatch.Reply | include/RaPsCallion/Dispatcher.h:46-62 | a reply reads back as `"p"`+interface name and the request id that was read, then the result; a void reply carries no result |
| Dispatch.HeaderReads | include/RaPsCallion/Dispatcher.h:48-50 | the tag and id of a reply read back in front of whatever follows them |
| Dispatch.ResultReads | include/RaPsCallion/Dispatcher.h:51 | the result part of a reply reads back as the result, or as nothing for a void method |
| Host.NewHost | include/RaPsCallion/RpcHost.h:17-19 | a new host has no interfaces and no handles and satisfies the exactly-once invariant |
| Host.AddSocket | include/RaPsCallion/RpcHost.h:20-27 | `addSocket` appends one handle and sends it every registered interface in registration order; other handles are unchanged |
| Host.Register | include/RaPsCallion/RpcHost.h:28-35 | `Register` appends one interface and sends it once to every existing handle |
| Host.ExactlyOnce | include/RaPsCallion/RpcHost.h:20-35 | every handle has been sent each registered interface exactly once, and nothing else |
| Host.Handle | include/RaPsCallion/RpcHost.h:36-47 | the interface name is read; the rest goes to the first interface with that name, and with no match nothing is called |
| Host.RequestReachesHandler | include/RaPsCallion/RpcHost.h:36-45 | a proxy's request is routed to the first interface of its name, whose handler for the method is called with the proxy's request id and arguments |
| Legacy.InterfaceNameOfUnchecked | include/proxydispatcher.h:22-27 | without the end-of-string check the scan still agrees with the checked one when some character is above '9', and the name is never empty |
| Legacy.SignalDisconnect | include/proxydispatcher.h:53-60 | every waiting promise breaks with "Connection Lost"; settled promises are kept; the table is cleared and `conn` nulled |
| Legacy.Call | include/proxydispatcher.h:124-134 | with `conn` null a call fails with "Remote end disconnected prematurely", taking no id and registering nothing; otherwise it adds exactly one pending callback and promise under the next id, keeping the other entries, the name and the connection, and the request reads back tagged `"d"`+interface name |
| Legacy.Provide | include/proxydispatcher.h:158-163 | a dispatcher registers under `"d"`+its name, replacing any earlier one, and leaves the other entries as they were |
| Legacy.RequestFindsDispatcher | include/proxydispatcher.h:162-171 | the tag a connected proxy's request starts with is the key its dispatcher registered under, and that dispatcher calls the method with the request's id and arguments |
| Legacy.GetProxyFor | include/proxydispatcher.h:108-122 | a cached proxy is returned as is; otherwise the call waits for the peer's interface list, creates a proxy only for an announced name, and throws otherwise; the lookup leaves a null entry behind |
| Legacy.GetProxyForCaches | include/proxydispatcher.h:112-114 | asking again for a proxy that was handed out returns it and changes nothing |
| Legacy.NotOfferedStays | include/proxydispatcher.h:301-307 | a name the peer did not announce is refused again, with no further change |
| Client.Deliver | include/RaPsCallion/RpcClient.h:41-50 | the interface name is read; the first proxy with that name handles the rest (taken to be its `dispatch`, see "## Left out"), and with no match the packet is dropped; names are kept |
| Client.DroppedPacket | include/RaPsCallion/RpcClient.h:44-49 | a packet for an interface no proxy has changes nothing |
| Client.LoopTurn | include/RaPsCallion/RpcClient.h:18-21 | one turn of the loop runs the test as written: it stops when that test finds no complete frame, stops with an overrun when the test accepts a frame ending past the buffer, leaves a frame whose handling throws in place, and otherwise takes the handled frame off the front |
| Client.LoopOverruns | include/RaPsCallion/RpcClient.h:18 | on the buffer `[0x02, 0x00]`, a prefix announcing two bytes of which one has arrived, the loop as written accepts a frame ending past the buffer, where the intended test would wait for more bytes |
| Client.OnRead | include/RaPsCallion/RpcClient.h:16-22 | the removed frames followed by what is left are the old buffer and the new bytes in order; each removed frame announces exactly the payload that was handled; on every exit the proxies are as handling those payloads in order leaves them; the callback ends when the test as written finds no frame, when it accepts a frame ending past the buffer (`Overran`), or when a handler throws on the next frame, which stays in place |
| Client.TakeFrame | include/RaPsCallion/Serializer.h:73-76 | a complete frame taken off the front parses on its own as its prefix and exactly the window's payload, and what remains is shorter |
| Client.Get | include/RaPsCallion/RpcClient.h:31-37 | `Get` appends exactly one new proxy and keeps the others in order |
| Client.LaterProxyShadowed | include/RaPsCallion/RpcClient.h:44-47 | a second proxy for an interface that already has one never receives a packet |
| Client.Disconnect | include/RaPsCallion/RpcClient.h:26-30 | the destructor disconnects every proxy: none waits on a callback or holds a connection, and every waiting promise is broken |
| Client.SentFrame | include/RaPsCallion/RpcClient.h:38-40 | what `Send` writes for an unfinalised serializer is the length prefix followed by the payload |
| Client.Send | include/RaPsCallion/RpcClient.h:38-40 | `Send` finalises the serializer and hands exactly its frame to the connection as one packet; a frame larger than the buffer is refused |
| Client.SendThenReceive | include/RaPsCallion/RpcClient.h:38-40 | a sent frame arriving at a receiver is accepted as one packet whose window is the payload, and removing it leaves what followed |
| WritePath.NewConnection | include/RaPsCallion/Connection.h:84-87 | a new connection is idle, has sent nothing and satisfies the writer invariant |
| WritePath.QueueWrite | include/RaPsCallion/Connection.h:56-66 | `queueWrite` hands the staged bytes over as one chunk from the staging buffer, switches staging to the other buffer, empties it, and marks the write active; staged-plus-sent bytes are unchanged |
| WritePath.Write | include/RaPsCallion/Connection.h:29-42 | `write` refuses a packet over 16384 bytes before changing anything; otherwise it appends the packet to staging and, when no write is active, transmits at once; the writer invariant is kept |
| WritePath.Complete | include/RaPsCallion/Connection.h:68-77 | after a successful completion, staged bytes are transmitted at once, or the writer goes idle; after an error nothing is transmitted and the write stays active |
| WritePath.IdleMeansFlushed | include/RaPsCallion/Connection.h:68-76 | an idle writer has handed every accepted byte to the socket, in call order |
| WritePath.WriteAll | include/RaPsCallion/Connection.h:29-42 | a run of writes accepts every packet in call order and keeps the writer invariant, so transmitted bytes followed by staged bytes are the accepted packets |
| WritePath.FailedWriterStalls | include/RaPsCallion/Connection.h:68-69 | after a failed completion the write stays active with nothing in flight, and no later write reaches the socket |
| WritePath.StalledStays | include/RaPsCallion/Connection.h:39-41 | an active writer with nothing in flight transmits nothing under any run of writes |
| Rpc.NewClient | include/RaPsCallion/rpc.h:62-65 | a new client has sent nothing and will number calls from 1 |
| Rpc.NewClientWithVersion | include/rpc.h:15-21 | the client sends one packet holding the version as a 32-bit value before anything else |
| Rpc.Invoke | include/RaPsCallion/rpc.h:29-37 | `Invoke` takes `maxId` as the id, sends id, function id and arguments, and records a live result under the fresh id (include/rpc.h:23-31 is the same) |
| Rpc.InvokeIdsIncrease | include/RaPsCallion/rpc.h:29-37 | successive calls take `maxId`, `maxId`+1, …, each recorded as a result |
| Rpc.InvokeKeeps | include/RaPsCallion/rpc.h:35 | a recorded result is not forgotten by later calls |
| Rpc.FirstIds | include/RaPsCallion/rpc.h:65 | a new client numbers its calls 1, 2, 3, … |
| Rpc.Expire | include/RaPsCallion/rpc.h:41-42 | releasing an unrequested result's last handle makes its weak reference fail to lock, and nothing else changes |
| Rpc.RequestValue | include/RaPsCallion/rpc.h:38-51 | an unknown or expired id changes nothing and sends nothing; a live id is pinned in `requested` and `[id, 0]` is sent (include/rpc.h:32-45 is the same) |
| Rpc.DropRequest | include/RaPsCallion/rpc.h:52-61 | an unknown id changes nothing; a known id sends `[id, 1]` and is erased from both tables (include/rpc.h:46-55 is the same) |
| Rpc.DropIsFinal | include/RaPsCallion/rpc.h:52-61 | after `drop_request`, asking for the value or dropping again sends nothing |
| Rpc.RequestTwice | include/RaPsCallion/rpc.h:46-50 | requesting a value twice sends two requests but pins the result once |

## Left out

- Sockets, select, pipes and threads are left out. This covers src/connection.cpp, src/serverconnection.cpp, include/serverconnection.h, include/connection.h, include/RaPsCallion/Server.h, and the `start`/`handle_read` paths of Connection.h. They are I/O. The receive loop is given the bytes that arrived; the write path records the chunks it hands over.
- `serializer<double>` and `serializer<float>` (src/serializer.cpp:101-144) are left out. They are floating-point conversion through `fpclassify`, `frexp` and `ldexp`. Only the integer `float_repr` layer below them is modelled.
- The future, promise and executor machinery is not part of this model (include/RaPsCallion/future.h, include/future.h, src/future.cpp). A promise is a value that is set once.
- `Handle` and `Reply` do not model the implementation behind a dispatcher's handler, or the `then` continuation that sends the reply. `Handle` ends with the call it would make; `Reply` takes the result as an input.
- include/RaPsCallion/rpc2.h and src/rpc.cpp are not part of this model. They are drafts of the write path and the host that do not compile; Connection.h is the coherent version. src/RpcHandle.cpp, which sends interfaces to a handle, does not compile either. The host records which interface went to which handle, not the bytes sent.
- `Dispatch.InterfaceNameOf`: `typeid(T).name()` is compiler-specific. The mangled name is an input byte string: the characters before the terminating NUL, so it holds no NUL. `char` is taken to be signed.
- `Codec.ReadU64`: a varint of more than 10 bytes shifts past 64 bits in the source. That is undefined behaviour; the model reduces the value modulo 2^64.
- `Codec.SignMagnitude`: LONG_MIN is excluded, because `std::abs(LONG_MIN)` overflows. For magnitudes of 2^62 and more, `std::abs(v) << 1` (src/serializer.cpp:17) overflows a signed `long`, which is undefined behaviour before C++20. The model takes the C++20 two's-complement reading, whose bits are the same as `|v| * 2`.
- `Prefix.PacketSize`: the accumulator is an unbounded integer. The `int64_t` overflow of a prefix longer than 9 groups is not modelled.
- `Frame.HasFullPacket`: the `size_t` accumulator is an unbounded integer as well.
- `Client.OnRead`: once the test as written accepts a frame that ends past the received bytes, the model stops with `Overran`. From there the source's `Handle` may read past the end of the vector (or throw, or return, before it does), and `RemovePacket` computes `buffer.size() - size`, which wraps in `size_t` (include/RaPsCallion/Serializer.h:74-75). That undefined behaviour is not modelled.
- `Composite.Decode`: the vector read calls `reserve(count)` before reading any element (include/RaPsCallion/Serializer.h:134, include/RaPsCallion/serializer.h:133, include/serializer.h:121). A large wire count can make it throw `std::length_error` or `std::bad_alloc`. The model does not raise that error, because `max_size` and the allocation limit are implementation-defined. It reads elements instead, and a count beyond the remaining bytes fails later with "Exceeded packet size".
- `FloatRepr.WriteFloat` and `FloatRepr.ExponentWord`: they require a Normal exponent in [−2^30+2, 2^30−3]. Then `exponent * 2` plus the sign, and the `- 2` or `+ 3` after it, stay within a 32-bit `int` (src/serializer.cpp:73-77). Outside that range the source overflows a signed `int`, which is undefined behaviour, so the model makes no promise there.
- `Frame.Finalize`: it requires a payload shorter than 2^56, so that the prefix fits the 8 bytes of headroom. The source writes below index 0 for longer payloads. The same requirement (`HasHeadroom`, or `ValidSerializer`, which includes it) applies to the following, for the same reason:
  - `Prefix.Place`, `Prefix.PlacedFrame`, `Prefix.PlaceIdempotent` and `Prefix.WritePrefix`;
  - `Frame.Data`, `Frame.Size`, `Frame.DataSizeFrame`, `Frame.AddAfterFinalize`, `Frame.FromSerializer` and `Frame.FromSerializerReadsPayload`;
  - `Client.SentFrame`, `Client.Send` and `Client.SendThenReceive`;
  - `Reader.Data`, `Reader.DataDeterministic`, `Reader.OpenData`, `Reader.OpenAtTestOffset`, `Reader.FromSerializer` and `Reader.FromSerializerIgnoresPrefix`, where the older `data()` (include/RaPsCallion/serializer.h:21-32, include/serializer.h:43-54) decrements `offs` below 0 the same way.
- `Client.Deliver` and `Client.Disconnect`: `RpcClient` reaches its proxies through `InterfaceProxy`, whose `getInterfaceName`, `signalDisconnect` and `Handle` are pure virtual (include/RaPsCallion/InterfaceProxy.h:8-10). It calls `iface->Handle(des)` (include/RaPsCallion/RpcClient.h:46) and `proxy->signalDisconnect()` (include/RaPsCallion/RpcClient.h:28). `ProxyBase` derives from `I` and `IProxy`, not from `InterfaceProxy` (include/RaPsCallion/Proxy.h:29-30). It defines `dispatch` rather than `Handle`, and no file in the repository connects the two. The model assumes that a client's proxy handles a packet as `ProxyBase::dispatch` does (`Proxy.Dispatch`) and disconnects as `ProxyBase::signalDisconnect` does (`Proxy.SignalDisconnect`).
- `Legacy.InterfaceNameOfUnchecked`: it requires some character above '9'. On a name made only of leading characters, the loop at include/proxydispatcher.h:25 has no end-of-string test, so it skips the NUL and reads past the string. That undefined behaviour is not modelled.
- `Codec.ReadString`: include/RaPsCallion/Serializer.h:82-100 only declares the scalar `Rapscallion::serializer` reads and writes that `Frame`, `Client.Deliver`, `Proxy.Dispatch`, `Dispatch.Handle` and `Host.Handle` use. The definitions in src/serializer.cpp are for the other namespace, `rapscallion::`, and its string read works on `ptr`/`end` (src/serializer.cpp:167-175), which `Rapscallion::Deserializer` does not have. The model assumes that the definitions, once written for `Rapscallion::Deserializer`, keep that behaviour. In particular, an over-long string throws "buffer underrun" with the cursor after the length. A read built on `getByteRange` would throw "Exceeded packet size" instead (include/RaPsCallion/Serializer.h:51-53).
- `Proxy.SignalDisconnect`, `Legacy.SignalDisconnect` and `Client.Disconnect`: each is one atomic step, but the source takes no lock for it. `signalDisconnect` walks and clears `callbacks` without `cbM` (include/RaPsCallion/Proxy.h:46-53, include/proxydispatcher.h:53-60), while `dispatch` erases entries under `cbM` on the read path. `~RpcClient` walks `proxies` without `m` (include/RaPsCallion/RpcClient.h:26-30), which `Get` locks. The data races that follow are not modelled, and the promise that a disconnect breaks every waiting promise holds only when nothing runs concurrently with it.
- `Reader.Open`, `Reader.OpenUnchecked` and `Reader.SkipPrefix` require `PrefixEnds`: a byte without 0x80 at or after the offset. The constructors' `while (*ptr & 0x80) ptr++` (include/RaPsCallion/serializer.h:42-43, include/serializer.h:15-16) has no bound, so on an incomplete prefix it reads past the buffer. That undefined behaviour is not modelled.
- `Proxy.Call` and `Legacy.Call` require lengths and the request counter to fit 64 bits. `size_t` wrap-around is not modelled. The same goes for `Rpc.Invoke`'s `maxId`.
- `Proxy.Call`: the newer proxy does not check `conn`, so a call requires a connected proxy.
- `WritePath.Write`: it requires that staging has room for the packet. The source has no capacity check (include/RaPsCallion/Connection.h:34-37) and would copy past the buffer.
- `Legacy.SignalDisconnect`: the legacy header reads a reply through `handle_promise<T>::handle`, which the repository never defines. Replies are taken to be read as in the newer proxy, so `Proxy.Dispatch` serves both. Its "Connection Lost" test of `s.buffer->size() == 0` is taken to hold for the empty buffer a disconnect passes. include/serializer.h's `Serializer` has 8 bytes of headroom and a non-pointer buffer, so read literally the test would never hold there.
- `Legacy.GetProxyFor`: `Waiting` stands for the blocking wait on the condition variable. How the peer's interface list arrives is in src/connection.cpp and is not part of this model.
- End-to-end routing of replies is not modelled. Replies are tagged `"p"`+name (include/RaPsCallion/Dispatcher.h:49), but `RpcClient::Handle` matches the bare interface name (include/RaPsCallion/RpcClient.h:44), so across these files a reply does not reach its proxy.
- `Rpc.NewClientWithVersion`: `RAPSCALLION_VERSION` is not defined in the repository and is a parameter. There is no `uint32_t` serializer, so the value is modelled as a varint of the 32-bit cast. In both drafts, the variadic `Serializer::write` the packets are built with does not exist; a packet is modelled as the list of values written.

## Findings

| source | as written | input that shows it | evidently intended | confidence | as-written member | corrected member |
|---|---|---|---|---|---|---|
| include/RaPsCallion/Serializer.h:66-67 | `size += offs` already makes `size` the end of the frame. `buffer.size() + offs >= size` then adds `offs` a second time, so it only checks that the buffer is as long as the payload. | The buffer `[0x01]`: a prefix announcing a one-byte payload that has not arrived. It is accepted, and the read window `[1, 2)` lies past the end of the one-byte buffer. | `buffer.size() >= size`: the whole frame is in the buffer. | not executed | Frame.HasFullPacketAcceptsBarePrefix | Frame.HasFullPacketFixed |

`Frame.HasFullPacket` is the test as written, and `Client.OnRead` runs it: `Client.LoopOverruns` shows the receive loop accepting a frame that ends past the received bytes. `Frame.FixedIsWrittenInBounds` relates the two tests.
