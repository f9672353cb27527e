# Lettuce command arguments and channel handler, in Dafny

This project models two sequential parts of the Lettuce Redis client:

- **`CommandArgs`**: the ordered, append-only list of arguments of one Redis command. Its `encode` turns the list into request bytes. Every argument goes out as a RESP (Redis Serialization Protocol) bulk string: `'$'`, the decimal length, CR LF, the payload, CR LF.
  - The argument kinds are byte arrays, 64-bit integers, strings, char arrays, keys and values.
  - Keys and values go through a codec. The codec takes one of three paths:
    - the raw `byte[]` fast path of `ExperimentalByteArrayCodec`, where a null array becomes `$0\r\n\r\n`;
    - the scratch-buffer path of a `ToByteBufEncoder`;
    - the generic `ByteBuffer` path.
  - Small non-negative integers come from a shared `IntegerCache`.
- **`RedisChannelHandler`**: the life cycle of one connection.
  - It holds two independent flags, `active` and `closed`, plus the command timeout and its unit.
  - It forwards commands to its `RedisChannelWriter`.
  - It keeps a one-shot list of close listeners. `close` fires them once and then empties the list.

Modules:

- `Wrappers` (wrappers.dfy): `Option`, `Nullable` (a Java reference that may be null) and `Outcome` (normal return, or the exception thrown).
- `Resp` (resp.dfy): bytes, ASCII decimal numerals and bulk strings. It also has the parsers that read these back, which serve as the partners of the encoders.
- `JavaText` (java_text.dfy): Java `long` and `char`, the `(byte)` narrowing cast, and `Long.toString`.
- `Netty` (netty.dfy): the `ByteBuf` target, a buffer that is only ever appended to, with a ghost release flag.
- `Protocol` (protocol.dfy): `CommandArgs`, its argument variants, the write helpers, the codec paths and the integer cache.
  - The pure functions `Frame` and `EncodingOf` say which bytes an argument, or an argument list, writes.
  - The methods are proved to append exactly those bytes.
  - The lemmas show these bytes form one bulk string per argument, in insertion order, and that they parse back to the payloads.
- `Redis` (redis.dfy): `RedisChannelHandler` as a class over its fields, with a ghost record of the writer.
  - Closeables are identity numbers.
  - Registries are sets of those numbers.
  - A closeable that throws `IOException` from `close()` is one whose number is in a given set.

Java semantics as modelled:

- A `byte` is read unsigned (0..255). The cast `(byte) c` keeps `c % 256`.
- A `null` `byte[]`, `String` or `char[]` argument is accepted by `add`. Encoding it throws `NullPointerException` after the `'$'` has been written. `Written(bytes, completed)` records those partial bytes, and `Encode` stops at that argument.
- `LettuceAssert.notNull` failures are `Fail(IllegalArgument(message))`, with the source's message, and nothing is appended.
- Which codec path applies is a tag of the `Codec` datatype, not a runtime identity or `instanceof` test. A codec's encoding functions are total functions from key or value to bytes.

A codec that throws on the scratch-buffer path leaves the buffer unreleased: `CommandArgs.java:562-572` has no `try`/`finally`. Codec exceptions are not modelled (see below), so on every modelled path the buffer is released, as `EncodeKey` and `EncodeValue` state.

The getters `count()`, `getTimeout()`, `getTimeoutUnit()`, `isOpen()` and `isClosed()` are the functions `Count`, `GetTimeout`, `GetTimeoutUnit`, `IsOpen` and `IsClosed`, each of which reads one field. Their laws are stated elsewhere:
- the `Add*` contracts, for the count;
- `SetTimeout` and the constructor, for the timeout and its unit;
- `Valid` and `OpenIsNotClosed`, for the two flags.

## Model

| member | source | states |
|---|---|---|
| Resp.DecimalDigits | src/main/java/com/lambdaworks/redis/protocol/CommandArgs.java:427-439 | the decimal text of a length is a non-empty run of digits with no superfluous leading zero; one digit exactly below 10, and a leading '0' only for 0 |
| Resp.DecimalRoundTrip | src/main/java/com/lambdaworks/redis/protocol/CommandArgs.java:427-439 | reading the digits back gives the number, so the length prefix is unambiguous |
| Resp.ParseDecimalPositive | src/main/java/com/lambdaworks/redis/protocol/CommandArgs.java:427-439 | a numeral without a leading '0' denotes at least 1 |
| Resp.CanonicalRoundTrip | src/main/java/com/lambdaworks/redis/protocol/CommandArgs.java:427-439 | every canonical numeral is the decimal text of its value, so decimal text and value are in bijection |
| Resp.ParseBulkString | src/main/java/com/lambdaworks/redis/protocol/CommandArgs.java:368-377 | reading one bulk string leaves strictly fewer bytes |
| Resp.BulkStringRoundTrip | src/main/java/com/lambdaworks/redis/protocol/CommandArgs.java:368-377 | a bulk string is self-delimiting: whatever follows it, parsing yields exactly its payload and the following bytes |
| Resp.FramesRoundTrip | src/main/java/com/lambdaworks/redis/protocol/CommandArgs.java:331-336 | concatenated bulk strings need no separator: parsing recovers every payload in order |
| JavaText.NarrowWiden | src/main/java/com/lambdaworks/redis/protocol/CommandArgs.java:434-438 | writing the characters of a decimal string through the `(byte)` cast gives back the digit bytes |
| JavaText.NarrowingIsLossy | src/main/java/com/lambdaworks/redis/protocol/CommandArgs.java:497-499 | the `(byte)` cast of a character outside Latin-1 collides with another character (U+0141 and 'A') |
| JavaText.DecimalTextRoundTrip | src/main/java/com/lambdaworks/redis/protocol/CommandArgs.java:434-438 | the decimal text of a number is all digits, has no sign, and reads back as the number |
| JavaText.LongRoundTrip | src/main/java/com/lambdaworks/redis/protocol/CommandArgs.java:422-425 | the `Long.toString` text of any long reads back as that long |
| Protocol.TextFrameIsBulkString | src/main/java/com/lambdaworks/redis/protocol/CommandArgs.java:490-501 | a text argument's length prefix (a count of characters) equals the number of payload bytes, so the text goes out as a proper bulk string |
| Protocol.NullArrayIsEmptyBulkString | src/main/java/com/lambdaworks/redis/protocol/CommandArgs.java:628-635 | a null array on the raw codec path writes "$0\r\n\r\n", the bulk string of the empty array |
| Protocol.KeyFrameIsBulkString | src/main/java/com/lambdaworks/redis/protocol/CommandArgs.java:554-575 | on every codec path a key goes out as the bulk string of the codec's bytes for it |
| Protocol.ValueFrameIsBulkString | src/main/java/com/lambdaworks/redis/protocol/CommandArgs.java:592-613 | on every codec path a value goes out as the bulk string of the codec's bytes for it |
| Protocol.CodecPathsAgree | src/main/java/com/lambdaworks/redis/protocol/CommandArgs.java:554-575 | for the same array, the raw, scratch-buffer and generic paths write the same bytes, and these are the bytes `writeBytes` writes |
| Protocol.FrameCompletesIff | src/main/java/com/lambdaworks/redis/protocol/CommandArgs.java:363-366 | encoding an argument throws exactly when it holds a null `byte[]`, `String` or `char[]`, and then it has written only '$' |
| Protocol.FrameIsBulkString | src/main/java/com/lambdaworks/redis/protocol/CommandArgs.java:341-349 | every argument without a null reference writes exactly one bulk string of its payload |
| Protocol.EncodingOfAppend | src/main/java/com/lambdaworks/redis/protocol/CommandArgs.java:331-336 | encoding is a homomorphism: the encoding of a + b is the encoding of a followed, if that did not throw, by the encoding of b |
| Protocol.EncodingCompletesIff | src/main/java/com/lambdaworks/redis/protocol/CommandArgs.java:331-336 | encoding completes if and only if no argument holds a null payload |
| Protocol.EncodingOfPrefix | src/main/java/com/lambdaworks/redis/protocol/CommandArgs.java:333-335 | one step of the encode loop: the next argument's bytes follow the prefix's, unless the prefix already threw |
| Protocol.EncodingOfFailedPrefix | src/main/java/com/lambdaworks/redis/protocol/CommandArgs.java:333-335 | once a prefix has thrown, nothing after it changes what was written |
| Protocol.EncodingStopsAtFirstNull | src/main/java/com/lambdaworks/redis/protocol/CommandArgs.java:331-336 | at the first null payload, the output is the earlier arguments' bulk strings followed by a lone '$', and encoding fails |
| Protocol.EncodingIsFrames | src/main/java/com/lambdaworks/redis/protocol/CommandArgs.java:331-336 | without null payloads, the output is exactly the concatenation of one bulk string per argument, in insertion order |
| Protocol.EncodingRoundTrip | src/main/java/com/lambdaworks/redis/protocol/CommandArgs.java:331-336 | the request bytes parse back, bulk string by bulk string, into the payloads of the arguments in insertion order |
| Protocol.IntegerFortyTwo | src/main/java/com/lambdaworks/redis/protocol/CommandArgs.java:422-425 | `add(42L)` writes "$2\r\n42\r\n" |
| Protocol.KeyValueExample | src/main/java/com/lambdaworks/redis/protocol/CommandArgs.java:83-131 | a key "k" and a value "v" through a generic codec write "$1\r\nk\r\n$1\r\nv\r\n" |
| Protocol.WriteChars | src/main/java/com/lambdaworks/redis/protocol/CommandArgs.java:497-499 | the character loop appends one narrowed byte per character, in order, and nothing else |
| Protocol.WriteInteger | src/main/java/com/lambdaworks/redis/protocol/CommandArgs.java:427-439 | for a non-negative value, appends exactly its canonical decimal digits (the single-byte branch below 10 agrees); a negative value appends the one byte ('0' + value) mod 256 |
| Protocol.WriteBytes | src/main/java/com/lambdaworks/redis/protocol/CommandArgs.java:368-377 | appends the bulk string of the array; a null array appends only '$' and throws NullPointerException |
| Protocol.WriteByteBuffer | src/main/java/com/lambdaworks/redis/protocol/CommandArgs.java:382-391 | appends the bulk string of the buffer's remaining bytes |
| Protocol.WriteByteBuf | src/main/java/com/lambdaworks/redis/protocol/CommandArgs.java:393-402 | appends the bulk string of the other buffer's readable bytes |
| Protocol.WriteString | src/main/java/com/lambdaworks/redis/protocol/CommandArgs.java:490-501 | appends '$', the character count, CRLF, one narrowed byte per character and CRLF; a null string appends only '$' and throws |
| Protocol.WriteCharArray | src/main/java/com/lambdaworks/redis/protocol/CommandArgs.java:521-532 | the same for a `char[]` |
| Protocol.EncodeRawKey | src/main/java/com/lambdaworks/redis/protocol/CommandArgs.java:628-642 | appends the bulk string of the array, or "$0\r\n\r\n" for null |
| Protocol.EncodeRawValue | src/main/java/com/lambdaworks/redis/protocol/CommandArgs.java:644-646 | the same as for a key |
| Protocol.EncodeKey | src/main/java/com/lambdaworks/redis/protocol/CommandArgs.java:554-575 | appends the key's frame for the codec's path; exactly on the scratch-buffer path a fresh buffer holding the codec's bytes is framed and then released |
| Protocol.EncodeValue | src/main/java/com/lambdaworks/redis/protocol/CommandArgs.java:592-613 | the same for a value |
| Protocol.EncodeInteger | src/main/java/com/lambdaworks/redis/protocol/CommandArgs.java:422-425 | appends the bulk string of the `Long.toString` text of the value |
| Protocol.EncodeArgument | src/main/java/com/lambdaworks/redis/protocol/CommandArgs.java:341-349 | appends exactly the argument's frame, and throws NullPointerException exactly when the argument holds a null reference |
| Protocol.IntegerArgument.constructor | src/main/java/com/lambdaworks/redis/protocol/CommandArgs.java:409-411 | the argument holds the given long |
| Protocol.IntegerCache.constructor | src/main/java/com/lambdaworks/redis/protocol/CommandArgs.java:446-452 | a fresh array of 128 entries, entry i an argument holding i |
| Protocol.IntegerCache.Of | src/main/java/com/lambdaworks/redis/protocol/CommandArgs.java:413-420 | returns an argument holding the value: the shared cached instance when 0 <= value < cache length, a fresh one otherwise |
| Protocol.InterleavedAt | src/main/java/com/lambdaworks/redis/protocol/CommandArgs.java:171-180 | a map of n entries adds 2n arguments: entry i's key at 2i and its value at 2i + 1 |
| Protocol.InterleavedLength | src/main/java/com/lambdaworks/redis/protocol/CommandArgs.java:171-180 | a map of n entries adds 2n arguments |
| Protocol.CommandArgs.constructor | src/main/java/com/lambdaworks/redis/protocol/CommandArgs.java:63-67 | a new list holds the codec and no arguments |
| Protocol.CommandArgs.AddKey | src/main/java/com/lambdaworks/redis/protocol/CommandArgs.java:83-87 | one key argument is appended last, earlier ones unchanged, count up by one |
| Protocol.CommandArgs.AddKeys | src/main/java/com/lambdaworks/redis/protocol/CommandArgs.java:95-119 | a null container is rejected with "Keys must not be null" and nothing appended; otherwise one key argument per key in iteration order, count up by the number of keys |
| Protocol.CommandArgs.AddValue | src/main/java/com/lambdaworks/redis/protocol/CommandArgs.java:127-131 | one value argument is appended last, count up by one |
| Protocol.CommandArgs.AddValues | src/main/java/com/lambdaworks/redis/protocol/CommandArgs.java:139-163 | a null container is rejected with "Values must not be null"; otherwise one value argument per value in order |
| Protocol.CommandArgs.AddMap | src/main/java/com/lambdaworks/redis/protocol/CommandArgs.java:171-180 | a null map is rejected with "Map must not be null"; otherwise the entries are appended interleaved key, value, key, value in iteration order |
| Protocol.CommandArgs.AddString | src/main/java/com/lambdaworks/redis/protocol/CommandArgs.java:188-192 | one string argument (possibly null) appended last, count up by one |
| Protocol.CommandArgs.AddChars | src/main/java/com/lambdaworks/redis/protocol/CommandArgs.java:200-204 | one char-array argument (possibly null) appended last, count up by one |
| Protocol.CommandArgs.AddLong | src/main/java/com/lambdaworks/redis/protocol/CommandArgs.java:212-216 | one integer argument holding the long appended last: the cached instance for a value in the cache's range, a fresh one outside it |
| Protocol.CommandArgs.AddBytes | src/main/java/com/lambdaworks/redis/protocol/CommandArgs.java:236-240 | one byte-array argument (possibly null) appended last, count up by one |
| Protocol.CommandArgs.AddKeyword | src/main/java/com/lambdaworks/redis/protocol/CommandArgs.java:248-252 | a null keyword is rejected with "CommandKeyword must not be null"; otherwise its bytes are appended as a byte-array argument |
| Protocol.CommandArgs.AddCommandType | src/main/java/com/lambdaworks/redis/protocol/CommandArgs.java:260-264 | a null command type is rejected with "CommandType must not be null"; otherwise its bytes are appended |
| Protocol.CommandArgs.Encode | src/main/java/com/lambdaworks/redis/protocol/CommandArgs.java:331-336 | appends exactly `EncodingOf` the argument list, in insertion order, fails exactly when encoding does not complete, and leaves the list unchanged |
| Redis.WithoutCounts | src/main/java/com/lambdaworks/redis/RedisChannelHandler.java:146-158 | a listener attempts `close` on each listed closeable other than the handler as often as it is listed (once each for distinct closeables), never on the handler |
| Redis.CloseTargetsIff | src/main/java/com/lambdaworks/redis/RedisChannelHandler.java:145-161 | firing the listeners closes a closeable if and only if some listener lists it and it is not the handler |
| Redis.ReleasedIff | src/main/java/com/lambdaworks/redis/RedisChannelHandler.java:160 | a closeable leaves a registry if and only if some listener over that registry lists it |
| Redis.RedisChannelHandler.constructor | src/main/java/com/lambdaworks/redis/RedisChannelHandler.java:63-70 | a new handler is valid (not both active and closed), open and not closed, has the given timeout and unit, no listeners, and is its writer's registered handler |
| Redis.RedisChannelHandler.ChannelRegistered | src/main/java/com/lambdaworks/redis/RedisChannelHandler.java:73-75 | clears `closed` and leaves `active`; the handler is then valid |
| Redis.RedisChannelHandler.SetTimeout | src/main/java/com/lambdaworks/redis/RedisChannelHandler.java:83-86 | `getTimeout`/`getTimeoutUnit` afterwards return the values just set; nothing else changes |
| Redis.RedisChannelHandler.Activated | src/main/java/com/lambdaworks/redis/RedisChannelHandler.java:179-182 | the handler is open and not closed, hence valid |
| Redis.RedisChannelHandler.Deactivated | src/main/java/com/lambdaworks/redis/RedisChannelHandler.java:187-189 | the handler is not open, hence valid; `closed` is left as it was |
| Redis.RedisChannelHandler.OpenIsNotClosed | src/main/java/com/lambdaworks/redis/RedisChannelHandler.java:199-205 | on a valid handler, which every operation keeps, `isOpen` implies not closed, as its documentation promises |
| Redis.RedisChannelHandler.Dispatch | src/main/java/com/lambdaworks/redis/RedisChannelHandler.java:127-134 | the command is appended to the writer's written commands and the writer's result (the command) is returned |
| Redis.RedisChannelHandler.Reset | src/main/java/com/lambdaworks/redis/RedisChannelHandler.java:207-209 | the writer is reset once; nothing else changes |
| Redis.RedisChannelHandler.SetAutoFlushCommands | src/main/java/com/lambdaworks/redis/RedisChannelHandler.java:234-236 | the writer's auto-flush setting is the given one |
| Redis.RedisChannelHandler.FlushCommands | src/main/java/com/lambdaworks/redis/RedisChannelHandler.java:238-240 | the writer is flushed once |
| Redis.RedisChannelHandler.AddListener | src/main/java/com/lambdaworks/redis/RedisChannelHandler.java:164-166 | the listener joins the pending list, last |
| Redis.RedisChannelHandler.RegisterCloseables | src/main/java/com/lambdaworks/redis/RedisChannelHandler.java:142-162 | all the closeables join the registry, and a listener over that registry and those closeables is added last |
| Redis.RedisChannelHandler.FireListener | src/main/java/com/lambdaworks/redis/RedisChannelHandler.java:145-161 | closes every listed closeable but the handler, in order, going on past ones that throw `IOException`, and then none of them remain in the registry |
| Redis.RedisChannelHandler.FireEventClosed | src/main/java/com/lambdaworks/redis/RedisChannelHandler.java:107 | every listener fires once, in order: the close calls are those of each listener in turn, and each registry loses what its listeners list |
| Redis.RedisChannelHandler.Close | src/main/java/com/lambdaworks/redis/RedisChannelHandler.java:92-111 | first call: not open, closed, writer closed exactly once, every pending listener fired exactly once in registration order, each registry loses what its listeners list, listener list emptied; on a closed handler nothing changes; a valid handler stays valid (every call, from any state) |
| Redis.CloseTwice | src/main/java/com/lambdaworks/redis/RedisChannelHandler.java:98-109 | two closes have the effect of one: writer closed once, each listener fired once, each registry loses what its listeners list exactly as after one close, no listener is left pending, and the timeout and its unit are unchanged |

## Left out

- `add(double)` and `DoubleArgument` (`CommandArgs.java:224-228`, `455-471`): they depend on Java's floating-point `Double.toString` formatting.
- `CommandArgs.toString` (`CommandArgs.java:279-295`): debug output that depends on `ByteBuf` internals.
- `getFirstInteger` and `getFirstString` (deprecated) and `getFirstEncodedKey` (`CommandArgs.java:302-324`): they delegate to `CommandArgsAccessor`, which is not part of this model.
- The constructor's null-codec check (`CommandArgs.java:65`): a `Codec` value in the model cannot be null.
- The concrete codecs, `ToByteBufEncoder.estimateSize`, and the byte constants of `CommandKeyword`, `CommandType` and `ProtocolKeyword`. These types are not part of this model. A codec is a tag plus total functions, and a keyword is its bytes.
- Exceptions thrown by a codec's encoding functions. These functions are modelled as total, so the unreleased scratch buffer on that path is not captured.
- `ByteBuf` allocation, capacity, reader index and reference counting. The target is the sequence of bytes written to it, and release is a ghost flag.
- Protocol.WriteByteBuf: does not model that Netty's `writeBytes(ByteBuf)` advances the source buffer's reader index.
- Protocol.WriteByteBuffer: does not model that `writeBytes(ByteBuffer)` advances the buffer's position.
- The system property that can override the `IntegerCache` size (`CommandArgs.java:447`). The size is the default, 128.
- Java array and `String` length limits (at most 2^31 - 1): sequences are unbounded.
- `syncHandler` (`RedisChannelHandler.java:228-232`): it builds a reflection proxy.
- `channelRead`, the `debugEnabled` logging, `getChannelWriter`, and `getOptions`/`setOptions` with `ClientOptions`, which is not part of this model.
- `volatile` fields and `synchronized close()`: they give cross-thread visibility and mutual exclusion. The model is sequential.
- `RedisChannelWriter` and its I/O: the writer is a ghost record of the calls it receives. `write` returns the command it is given.
- A registry is modelled by which closeables it holds, as a set. A `Collection` that holds a closeable twice is not distinguished. `removeAll` drops every occurrence, so membership after close is the same either way.
- Close listeners other than those `registerCloseables` adds: subclasses may add others through `addListener`. The model's listener is always the closeables listener.
- Redis.RedisChannelHandler.FireListener: only `IOException` is caught (`RedisChannelHandler.java:151-156`). An unchecked exception from `close()`, such as the `NullPointerException` of a null element, ends the loop: the remaining closeables stay open and `registry.removeAll` does not run. The model's closeables never throw anything but `IOException`, and the ids are never null.
- Redis.RedisChannelHandler.FireListener: the listener reads the caller's varargs array when it fires, so a caller that changes the array after `registerCloseables` changes what is closed. The model takes the list as registered.
- Redis.RedisChannelHandler.Close: `CloseEvents` is not part of this model, so listeners are taken to fire in registration order and each registration to be a separate listener.
