/** `CommandArgs`: the ordered, append-only list of command arguments and its
    encoding into RESP request bytes. Every argument goes out as one bulk
    string. Keys and values go through the list's codec, along one of three
    paths chosen by the codec's variant (in Java: reference identity with
    `ExperimentalByteArrayCodec.INSTANCE`, then `instanceof ToByteBufEncoder`). */
module Protocol {
  import opened Wrappers
  import opened Resp
  import opened JavaText
  import opened Netty

  /* ------------------------------------------------------------------ */
  /* Codecs and arguments                                                */
  /* ------------------------------------------------------------------ */

  /** A `RedisCodec<K, V>`, reduced to what encoding needs. */
  datatype Codec<!K, !V> =
      /** `ExperimentalByteArrayCodec.INSTANCE`: keys and values are `byte[]`;
          `keyArray` and `valueArray` are the casts `(byte[]) key` and
          `(byte[]) value`, which may yield null. */
    | ExperimentalByteArray(keyArray: K -> Nullable<Bytes>, valueArray: V -> Nullable<Bytes>)
      /** A codec that implements `ToByteBufEncoder`: the bytes its
          `encodeKey(key, buf)` / `encodeValue(value, buf)` write into a buffer. */
    | ToByteBufEncoder(encodeKeyInto: K -> Bytes, encodeValueInto: V -> Bytes)
      /** Any other codec: the remaining bytes of the `ByteBuffer` that its
          `encodeKey(key)` / `encodeValue(value)` return. */
    | Generic(encodeKey: K -> Bytes, encodeValue: V -> Bytes)

  /** `IntegerArgument`: immutable, so cached instances can be shared. */
  class IntegerArgument {
    const val: Long

    constructor (val: Long)
      ensures this.val == val
    {
      this.val := val;
    }
  }

  /** A `SingularArgument`. Java payload references may be null; a null
      `byte[]`, `String` or `char[]` is accepted when added and fails when
      encoded. */
  datatype SingularArgument<!K, !V> =
    | BytesArg(bytes: Nullable<Bytes>)
    | IntegerArg(integer: IntegerArgument)
    | StringArg(text: Nullable<JString>)
    | CharArrayArg(chars: Nullable<JString>)
    | KeyArg(key: K, codec: Codec<K, V>)
    | ValueArg(value: V, codec: Codec<K, V>)

  /** A `CommandKeyword`, `CommandType` or `ProtocolKeyword`: only its
      pre-encoded bytes matter here. */
  datatype ProtocolKeyword = ProtocolKeyword(bytes: Bytes)

  /* ------------------------------------------------------------------ */
  /* What encoding writes                                                */
  /* ------------------------------------------------------------------ */

  /** The bytes an encoding step appended, and whether it completed (false:
      it threw NullPointerException after appending them). */
  datatype Written = Written(bytes: Bytes, completed: bool)

  /** Written by a write step that dereferences a null payload: only the '$'
      that precedes the length. */
  const NullPayloadWritten := Written([Dollar], false)

  /** "0\r\n\r\n", written after '$' for a null array on the raw path. */
  const NullArrayBody: Bytes := [Zero, CR, LF, CR, LF]

  /** What `ExperimentalByteArrayCodec.encodeKey`/`encodeValue` write. */
  function RawFrame(raw: Nullable<Bytes>): Bytes {
    match raw
    case Null => [Dollar, Zero, CR, LF, CR, LF]
    case NonNull(b) => BulkString(b)
  }

  /** What both `writeString` methods write: the length prefix counts
      characters, and each character goes out as one narrowed byte. */
  function TextFrame(s: JString): Bytes {
    [Dollar] + DecimalDigits(|s|) + CRLF + Narrow(s) + CRLF
  }

  /** What `IntegerArgument.encode` writes: the text of the long. */
  function IntegerFrame(v: Long): Bytes {
    TextFrame(LongToString(v))
  }

  /** What `KeyArgument.encode` writes, path by path. */
  function KeyFrame<K, V>(codec: Codec<K, V>, key: K): Bytes {
    match codec
    case ExperimentalByteArray(keyArray, _) => RawFrame(keyArray(key))
    case ToByteBufEncoder(encodeKeyInto, _) => BulkString(encodeKeyInto(key))
    case Generic(encodeKey, _) => BulkString(encodeKey(key))
  }

  /** What `ValueArgument.encode` writes, path by path. */
  function ValueFrame<K, V>(codec: Codec<K, V>, value: V): Bytes {
    match codec
    case ExperimentalByteArray(_, valueArray) => RawFrame(valueArray(value))
    case ToByteBufEncoder(_, encodeValueInto) => BulkString(encodeValueInto(value))
    case Generic(_, encodeValue) => BulkString(encodeValue(value))
  }

  /** What `SingularArgument.encode` writes for one argument. */
  function Frame<K, V>(a: SingularArgument<K, V>): Written {
    match a
    case BytesArg(b) => if b.Null? then NullPayloadWritten else Written(BulkString(b.value), true)
    case IntegerArg(i) => Written(IntegerFrame(i.val), true)
    case StringArg(s) => if s.Null? then NullPayloadWritten else Written(TextFrame(s.value), true)
    case CharArrayArg(s) => if s.Null? then NullPayloadWritten else Written(TextFrame(s.value), true)
    case KeyArg(k, c) => Written(KeyFrame(c, k), true)
    case ValueArg(v, c) => Written(ValueFrame(c, v), true)
  }

  /** One write step after another: the second runs only if the first did
      not throw. */
  function Then(prior: Written, next: Written): Written {
    if !prior.completed then prior else Written(prior.bytes + next.bytes, next.completed)
  }

  /** What `CommandArgs.encode` writes for a list of arguments: each one in
      turn, stopping at the first that throws. */
  function EncodingOf<K, V>(args: seq<SingularArgument<K, V>>): Written {
    if args == [] then Written([], true)
    else Then(EncodingOf(args[..|args| - 1]), Frame(args[|args| - 1]))
  }

  /* ------------------------------------------------------------------ */
  /* Payloads: what a server reads back out of each bulk string          */
  /* ------------------------------------------------------------------ */

  function KeyPayload<K, V>(codec: Codec<K, V>, key: K): Bytes {
    match codec
    case ExperimentalByteArray(keyArray, _) => if keyArray(key).Null? then [] else keyArray(key).value
    case ToByteBufEncoder(encodeKeyInto, _) => encodeKeyInto(key)
    case Generic(encodeKey, _) => encodeKey(key)
  }

  function ValuePayload<K, V>(codec: Codec<K, V>, value: V): Bytes {
    match codec
    case ExperimentalByteArray(_, valueArray) => if valueArray(value).Null? then [] else valueArray(value).value
    case ToByteBufEncoder(_, encodeValueInto) => encodeValueInto(value)
    case Generic(_, encodeValue) => encodeValue(value)
  }

  /** The argument holds no null `byte[]`, `String` or `char[]`. */
  predicate NonNullPayload<K, V>(a: SingularArgument<K, V>) {
    match a
    case BytesArg(b) => b.NonNull?
    case StringArg(s) => s.NonNull?
    case CharArrayArg(s) => s.NonNull?
    case _ => true
  }

  /** The payload of an argument without a null reference. */
  function Payload<K, V>(a: SingularArgument<K, V>): Bytes
    requires NonNullPayload(a)
  {
    match a
    case BytesArg(b) => b.value
    case IntegerArg(i) => Narrow(LongToString(i.val))
    case StringArg(s) => Narrow(s.value)
    case CharArrayArg(s) => Narrow(s.value)
    case KeyArg(k, c) => KeyPayload(c, k)
    case ValueArg(v, c) => ValuePayload(c, v)
  }

  /** No argument holds a null payload, so encoding cannot throw. */
  predicate Encodable<K, V>(args: seq<SingularArgument<K, V>>) {
    forall i :: 0 <= i < |args| ==> NonNullPayload(args[i])
  }

  function Payloads<K, V>(args: seq<SingularArgument<K, V>>): seq<Bytes>
    requires Encodable(args)
  {
    seq(|args|, i requires 0 <= i < |args| => Payload(args[i]))
  }

  /* ------------------------------------------------------------------ */
  /* Properties of the encoding                                          */
  /* ------------------------------------------------------------------ */

  /** The length prefix of a text argument (a count of characters) equals the
      number of payload bytes, so the text goes out as a proper bulk string. */
  lemma TextFrameIsBulkString(s: JString)
    ensures TextFrame(s) == BulkString(Narrow(s))
    ensures |Narrow(s)| == |s|
  {
  }

  /** A null array on the raw path is indistinguishable on the wire from an
      empty array: "$0\r\n\r\n". */
  lemma NullArrayIsEmptyBulkString()
    ensures RawFrame(Null) == BulkString([]) == [Dollar, Zero, CR, LF, CR, LF]
  {
  }

  /** Whatever the path, a key or value goes out as the bulk string of the
      codec's bytes. */
  lemma KeyFrameIsBulkString<K, V>(codec: Codec<K, V>, key: K)
    ensures KeyFrame(codec, key) == BulkString(KeyPayload(codec, key))
  {
    NullArrayIsEmptyBulkString();
  }

  lemma ValueFrameIsBulkString<K, V>(codec: Codec<K, V>, value: V)
    ensures ValueFrame(codec, value) == BulkString(ValuePayload(codec, value))
  {
    NullArrayIsEmptyBulkString();
  }

  /** The raw fast path, the scratch-buffer path and the generic path write
      the same bytes for the same array, and those are the bytes
      `BytesArgument.writeBytes` writes for it. */
  lemma CodecPathsAgree<K, V>(key: K, b: Bytes, raw: Codec<K, V>, scratch: Codec<K, V>, generic: Codec<K, V>)
    requires raw.ExperimentalByteArray? && raw.keyArray(key) == NonNull(b)
    requires scratch.ToByteBufEncoder? && scratch.encodeKeyInto(key) == b
    requires generic.Generic? && generic.encodeKey(key) == b
    ensures KeyFrame(raw, key) == KeyFrame(scratch, key) == KeyFrame(generic, key)
    ensures KeyFrame(raw, key) == Frame<K, V>(BytesArg(NonNull(b))).bytes
  {
  }

  /** Encoding an argument throws exactly when it holds a null reference, and
      then it has written only its '$'. */
  lemma FrameCompletesIff<K, V>(a: SingularArgument<K, V>)
    ensures Frame(a).completed <==> NonNullPayload(a)
    ensures !NonNullPayload(a) ==> Frame(a) == NullPayloadWritten
  {
  }

  /** Every argument without a null reference goes out as one bulk string of
      its payload. */
  lemma FrameIsBulkString<K, V>(a: SingularArgument<K, V>)
    requires NonNullPayload(a)
    ensures Frame(a).bytes == BulkString(Payload(a))
  {
    match a
    case IntegerArg(i) => TextFrameIsBulkString(LongToString(i.val));
    case StringArg(s) => TextFrameIsBulkString(s.value);
    case CharArrayArg(s) => TextFrameIsBulkString(s.value);
    case KeyArg(k, c) => KeyFrameIsBulkString(c, k);
    case ValueArg(v, c) => ValueFrameIsBulkString(c, v);
    case BytesArg(_) =>
  }

  lemma ThenAssociative(x: Written, y: Written, z: Written)
    ensures Then(Then(x, y), z) == Then(x, Then(y, z))
  {
  }

  /** Encoding is a homomorphism: encoding a + b writes the encoding of a and,
      if that completed, the encoding of b after it. */
  lemma {:induction false} EncodingOfAppend<K, V>(a: seq<SingularArgument<K, V>>, b: seq<SingularArgument<K, V>>)
    ensures EncodingOf(a + b) == Then(EncodingOf(a), EncodingOf(b))
  {
    if b == [] {
      assert a + b == a;
    } else {
      var init, last := b[..|b| - 1], b[|b| - 1];
      assert (a + b)[..|a + b| - 1] == a + init;
      assert (a + b)[|a + b| - 1] == last;
      EncodingOfAppend(a, init);
      ThenAssociative(EncodingOf(a), EncodingOf(init), Frame(last));
    }
  }

  /** Encoding completes exactly when no argument holds a null payload. */
  lemma {:induction false} EncodingCompletesIff<K, V>(args: seq<SingularArgument<K, V>>)
    ensures EncodingOf(args).completed <==> Encodable(args)
  {
    if args != [] {
      var init := args[..|args| - 1];
      EncodingCompletesIff(init);
      assert forall i :: 0 <= i < |init| ==> init[i] == args[i];
      FrameCompletesIff(args[|args| - 1]);
    }
  }

  /** Encoding one more argument: the step the loop of `encode` takes. */
  lemma EncodingOfPrefix<K, V>(args: seq<SingularArgument<K, V>>, i: nat)
    requires i < |args|
    ensures EncodingOf(args[..i + 1]) == Then(EncodingOf(args[..i]), Frame(args[i]))
  {
    assert args[..i + 1][..i] == args[..i];
  }

  /** A prefix that throws decides the whole encoding. */
  lemma EncodingOfFailedPrefix<K, V>(args: seq<SingularArgument<K, V>>, j: nat)
    requires j <= |args| && !EncodingOf(args[..j]).completed
    ensures EncodingOf(args) == EncodingOf(args[..j])
  {
    assert args == args[..j] + args[j..];
    EncodingOfAppend(args[..j], args[j..]);
  }

  /** Once an argument throws, nothing after it is written: the encoding is
      that of the arguments before it, then the '$' of the failing one. */
  lemma EncodingStopsAtFirstNull<K, V>(args: seq<SingularArgument<K, V>>, j: nat)
    requires j < |args| && Encodable(args[..j]) && !NonNullPayload(args[j])
    ensures EncodingOf(args) == Written(EncodingOf(args[..j]).bytes + [Dollar], false)
  {
    var prefix := EncodingOf(args[..j]);
    EncodingCompletesIff(args[..j]);
    FrameCompletesIff(args[j]);
    EncodingOfPrefix(args, j);
    assert EncodingOf(args[..j + 1]) == Then(prefix, NullPayloadWritten);
    EncodingOfFailedPrefix(args, j + 1);
  }

  /** When nothing throws, the encoding is exactly the concatenation of one
      bulk string per argument, in insertion order. */
  lemma {:induction false} EncodingIsFrames<K, V>(args: seq<SingularArgument<K, V>>)
    requires Encodable(args)
    ensures EncodingOf(args) == Written(Frames(Payloads(args)), true)
  {
    if args != [] {
      var init, last := args[..|args| - 1], args[|args| - 1];
      assert Encodable(init) by {
        assert forall i :: 0 <= i < |init| ==> init[i] == args[i];
      }
      EncodingIsFrames(init);
      FrameIsBulkString(last);
      assert Payloads(args) == Payloads(init) + [Payload(last)];
      FramesAppend(Payloads(init), Payload(last));
    }
  }

  /** The request bytes parse back, bulk string by bulk string, into the
      payloads of the arguments in insertion order. */
  lemma EncodingRoundTrip<K, V>(args: seq<SingularArgument<K, V>>)
    requires Encodable(args)
    ensures ParseFrames(EncodingOf(args).bytes) == Some(Payloads(args))
  {
    EncodingIsFrames(args);
    FramesRoundTrip(Payloads(args));
  }

  /** `add(42L)` writes "$2\r\n42\r\n". */
  lemma IntegerFortyTwo()
    ensures IntegerFrame(42) == [Dollar, Zero + 2, CR, LF, Zero + 4, Zero + 2, CR, LF]
  {
    assert DecimalDigits(42) == [Zero + 4, Zero + 2];
    assert DecimalDigits(2) == [Zero + 2];
  }

  /** `addKey("k").addValue("v")` with a codec that writes the ASCII bytes of
      a string writes "$1\r\nk\r\n$1\r\nv\r\n". */
  lemma KeyValueExample<K, V>(codec: Codec<K, V>, k: K, v: V)
    requires codec.Generic? && codec.encodeKey(k) == [107] && codec.encodeValue(v) == [118]
    ensures EncodingOf([KeyArg(k, codec), ValueArg(v, codec)]) ==
      Written([Dollar, Zero + 1, CR, LF, 107, CR, LF, Dollar, Zero + 1, CR, LF, 118, CR, LF], true)
  {
    var args := [KeyArg(k, codec), ValueArg(v, codec)];
    var one := [Dollar, Zero + 1, CR, LF];
    assert DecimalDigits(1) == [Zero + 1];
    assert Frame(args[0]) == Written(one + [107, CR, LF], true);
    assert Frame(args[1]) == Written(one + [118, CR, LF], true);
    EncodingOfPrefix(args, 0);
    EncodingOfPrefix(args, 1);
    assert args[..0] == [] && args[..2] == args;
  }

  /* ------------------------------------------------------------------ */
  /* The write helpers                                                   */
  /* ------------------------------------------------------------------ */

  /** The pieces a write helper appends one after another make up a bulk
      string. */
  lemma Framed(prefix: Bytes, payload: Bytes)
    ensures prefix + [Dollar] + DecimalDigits(|payload|) + CRLF + payload + CRLF == prefix + BulkString(payload)
  {
    Regroup(prefix, [Dollar], DecimalDigits(|payload|), CRLF, payload, CRLF);
  }

  /** The same for the text helpers, whose payload is narrowed characters. */
  lemma TextFramed(prefix: Bytes, s: JString)
    ensures prefix + [Dollar] + DecimalDigits(|s|) + CRLF + Narrow(s) + CRLF == prefix + TextFrame(s)
  {
    Regroup(prefix, [Dollar], DecimalDigits(|s|), CRLF, Narrow(s), CRLF);
  }

  lemma Regroup(p: Bytes, a: Bytes, b: Bytes, c: Bytes, d: Bytes, e: Bytes)
    ensures p + a + b + c + d + e == p + (a + b + c + d + e)
  {
    assert p + a + b == p + (a + b);
    assert p + (a + b) + c == p + (a + b + c);
    assert p + (a + b + c) + d == p + (a + b + c + d);
  }

  /** The character loops of `writeInteger` and of both `writeString`
      methods: each character written as one narrowed byte. */
  method WriteChars(target: ByteBuf, chars: JString)
    modifies target
    ensures target.bytes == old(target.bytes) + Narrow(chars)
    ensures target.released == old(target.released)
  {
    var i := 0;
    while i < |chars|
      invariant 0 <= i <= |chars|
      invariant target.bytes == old(target.bytes) + Narrow(chars[..i])
      invariant target.released == old(target.released)
    {
      target.WriteByte(NarrowChar(chars[i]));
      assert Narrow(chars[..i + 1]) == Narrow(chars[..i]) + [NarrowChar(chars[i])];
      i := i + 1;
    }
    assert chars[..i] == chars;
  }

  /** `IntegerArgument.writeInteger`: for a non-negative value, exactly its
      decimal digits. Below 10 it writes the single byte '0' + value, which
      for a negative value is not a digit at all. */
  method WriteInteger(target: ByteBuf, value: int)
    modifies target
    ensures value >= 0 ==> target.bytes == old(target.bytes) + DecimalDigits(value)
    ensures value < 0 ==> target.bytes == old(target.bytes) + [(Zero + value) % 256]
    ensures target.released == old(target.released)
  {
    if value < 10 {
      target.WriteByte((Zero + value) % 256);
      return;
    }
    var asString := DecimalText(value);
    WriteChars(target, asString);
    NarrowWiden(DecimalDigits(value));
  }

  /** `BytesArgument.writeBytes`: the bulk string of the array; a null array
      throws once '$' is written. */
  method WriteBytes(target: ByteBuf, value: Nullable<Bytes>) returns (o: Outcome)
    modifies target
    ensures value.NonNull? ==> o == Pass && target.bytes == old(target.bytes) + BulkString(value.value)
    ensures value.Null? ==> o == Fail(NullPointer) && target.bytes == old(target.bytes) + [Dollar]
    ensures target.released == old(target.released)
  {
    target.WriteByte(Dollar);
    if value.Null? {
      return Fail(NullPointer);
    }
    WriteInteger(target, |value.value|);
    target.WriteBytes(CRLF);
    target.WriteBytes(value.value);
    target.WriteBytes(CRLF);
    Framed(old(target.bytes), value.value);
    o := Pass;
  }

  /** `ByteBufferArgument.writeByteBuffer`: the bulk string of the remaining
      bytes of a `ByteBuffer`. */
  method WriteByteBuffer(target: ByteBuf, value: Bytes)
    modifies target
    ensures target.bytes == old(target.bytes) + BulkString(value)
    ensures target.released == old(target.released)
  {
    target.WriteByte(Dollar);
    WriteInteger(target, |value|);
    target.WriteBytes(CRLF);
    target.WriteBytes(value);
    target.WriteBytes(CRLF);
    Framed(old(target.bytes), value);
  }

  /** `ByteBufferArgument.writeByteBuf`: the bulk string of the readable
      bytes of another buffer. */
  method WriteByteBuf(target: ByteBuf, value: ByteBuf)
    requires target != value
    modifies target
    ensures target.bytes == old(target.bytes) + BulkString(value.bytes)
    ensures target.released == old(target.released)
  {
    target.WriteByte(Dollar);
    WriteInteger(target, |value.bytes|);
    target.WriteBytes(CRLF);
    target.WriteBytes(value.bytes);
    target.WriteBytes(CRLF);
    Framed(old(target.bytes), value.bytes);
  }

  /** `StringArgument.writeString`: prefix `value.length()`, then one narrowed
      byte per character; a null string throws once '$' is written. */
  method WriteString(target: ByteBuf, value: Nullable<JString>) returns (o: Outcome)
    modifies target
    ensures value.NonNull? ==> o == Pass && target.bytes == old(target.bytes) + TextFrame(value.value)
    ensures value.Null? ==> o == Fail(NullPointer) && target.bytes == old(target.bytes) + [Dollar]
    ensures target.released == old(target.released)
  {
    target.WriteByte(Dollar);
    if value.Null? {
      return Fail(NullPointer);
    }
    WriteInteger(target, |value.value|);
    target.WriteBytes(CRLF);
    WriteChars(target, value.value);
    target.WriteBytes(CRLF);
    TextFramed(old(target.bytes), value.value);
    o := Pass;
  }

  /** `CharArrayArgument.writeString`: as for a string, over a `char[]`. */
  method WriteCharArray(target: ByteBuf, value: Nullable<JString>) returns (o: Outcome)
    modifies target
    ensures value.NonNull? ==> o == Pass && target.bytes == old(target.bytes) + TextFrame(value.value)
    ensures value.Null? ==> o == Fail(NullPointer) && target.bytes == old(target.bytes) + [Dollar]
    ensures target.released == old(target.released)
  {
    target.WriteByte(Dollar);
    if value.Null? {
      return Fail(NullPointer);
    }
    WriteInteger(target, |value.value|);
    target.WriteBytes(CRLF);
    WriteChars(target, value.value);
    target.WriteBytes(CRLF);
    TextFramed(old(target.bytes), value.value);
    o := Pass;
  }

  /** `ExperimentalByteArrayCodec.encodeKey`: the bulk string of the array,
      and "$0\r\n\r\n" for null. */
  method EncodeRawKey(target: ByteBuf, key: Nullable<Bytes>)
    modifies target
    ensures target.bytes == old(target.bytes) + RawFrame(key)
    ensures target.released == old(target.released)
  {
    target.WriteByte(Dollar);
    if key.Null? {
      target.WriteBytes(NullArrayBody);
      assert [Dollar] + NullArrayBody == RawFrame(key);
      assert target.bytes == old(target.bytes) + [Dollar] + NullArrayBody;
      return;
    }
    WriteInteger(target, |key.value|);
    target.WriteBytes(CRLF);
    target.WriteBytes(key.value);
    target.WriteBytes(CRLF);
    Framed(old(target.bytes), key.value);
  }

  /** `ExperimentalByteArrayCodec.encodeValue`: the same as for a key. */
  method EncodeRawValue(target: ByteBuf, value: Nullable<Bytes>)
    modifies target
    ensures target.bytes == old(target.bytes) + RawFrame(value)
    ensures target.released == old(target.released)
  {
    EncodeRawKey(target, value);
  }

  /** `KeyArgument.encode`: dispatch on the codec's path. On the scratch-buffer
      path the codec writes into a fresh buffer, whose readable bytes are
      framed and which is then released; `scratch` names that buffer. */
  method EncodeKey<K, V>(target: ByteBuf, key: K, codec: Codec<K, V>) returns (ghost scratch: ByteBuf?)
    modifies target
    ensures target.bytes == old(target.bytes) + KeyFrame(codec, key)
    ensures target.released == old(target.released)
    ensures codec.ToByteBufEncoder? <==> scratch != null
    ensures scratch != null ==> fresh(scratch) && scratch.released && scratch.bytes == codec.encodeKeyInto(key)
  {
    scratch := null;
    match codec
    case ExperimentalByteArray(keyArray, _) =>
      EncodeRawKey(target, keyArray(key));
    case ToByteBufEncoder(encodeKeyInto, _) =>
      var temporaryBuffer := new ByteBuf();
      temporaryBuffer.WriteBytes(encodeKeyInto(key));
      WriteByteBuf(target, temporaryBuffer);
      temporaryBuffer.Release();
      scratch := temporaryBuffer;
    case Generic(encodeKey, _) =>
      WriteByteBuffer(target, encodeKey(key));
  }

  /** `ValueArgument.encode`: the same dispatch, with the value side of the
      codec. */
  method EncodeValue<K, V>(target: ByteBuf, value: V, codec: Codec<K, V>) returns (ghost scratch: ByteBuf?)
    modifies target
    ensures target.bytes == old(target.bytes) + ValueFrame(codec, value)
    ensures target.released == old(target.released)
    ensures codec.ToByteBufEncoder? <==> scratch != null
    ensures scratch != null ==> fresh(scratch) && scratch.released && scratch.bytes == codec.encodeValueInto(value)
  {
    scratch := null;
    match codec
    case ExperimentalByteArray(_, valueArray) =>
      EncodeRawValue(target, valueArray(value));
    case ToByteBufEncoder(_, encodeValueInto) =>
      var temporaryBuffer := new ByteBuf();
      temporaryBuffer.WriteBytes(encodeValueInto(value));
      WriteByteBuf(target, temporaryBuffer);
      temporaryBuffer.Release();
      scratch := temporaryBuffer;
    case Generic(_, encodeValue) =>
      WriteByteBuffer(target, encodeValue(value));
  }

  /** `IntegerArgument.encode`: the text of the long, as a bulk string. */
  method EncodeInteger(target: ByteBuf, argument: IntegerArgument)
    modifies target
    ensures target.bytes == old(target.bytes) + BulkString(Narrow(LongToString(argument.val)))
    ensures target.released == old(target.released)
  {
    var o := WriteString(target, NonNull(LongToString(argument.val)));
    TextFrameIsBulkString(LongToString(argument.val));
  }

  /** `SingularArgument.encode`, dispatched on the variant. */
  method EncodeArgument<K, V>(target: ByteBuf, a: SingularArgument<K, V>) returns (o: Outcome)
    modifies target
    ensures target.bytes == old(target.bytes) + Frame(a).bytes
    ensures o == if NonNullPayload(a) then Pass else Fail(NullPointer)
    ensures target.released == old(target.released)
  {
    match a
    case BytesArg(b) =>
      o := WriteBytes(target, b);
    case IntegerArg(i) =>
      EncodeInteger(target, i);
      TextFrameIsBulkString(LongToString(i.val));
      o := Pass;
    case StringArg(s) =>
      o := WriteString(target, s);
    case CharArrayArg(cs) =>
      o := WriteCharArray(target, cs);
    case KeyArg(k, c) =>
      ghost var _ := EncodeKey(target, k, c);
      o := Pass;
    case ValueArg(v, c) =>
      ghost var _ := EncodeValue(target, v, c);
      o := Pass;
  }

  /* ------------------------------------------------------------------ */
  /* The integer cache                                                   */
  /* ------------------------------------------------------------------ */

  /** The size of `IntegerCache` when no system property overrides it. */
  const IntegerCacheSize := 128

  /** `IntegerCache`: one shared `IntegerArgument` per value below the size. */
  class IntegerCache {
    const cache: array<IntegerArgument?>

    ghost predicate Valid()
      reads cache
    {
      forall i :: 0 <= i < cache.Length ==> cache[i] != null && cache[i].val == i
    }

    /** The static initializer: fills the array in a loop. */
    constructor ()
      ensures Valid() && fresh(cache) && cache.Length == IntegerCacheSize
    {
      var a := new IntegerArgument?[IntegerCacheSize];
      var i := 0;
      while i < IntegerCacheSize
        invariant 0 <= i <= IntegerCacheSize
        invariant forall j :: 0 <= j < i ==> a[j] != null && a[j].val == j
      {
        a[i] := new IntegerArgument(i);
        i := i + 1;
      }
      cache := a;
    }

    /** `IntegerArgument.of`: the shared instance for a value in the cache's
        range, a fresh one otherwise; either way one that holds the value. */
    method Of(val: Long) returns (r: IntegerArgument)
      requires Valid()
      ensures r.val == val
      ensures 0 <= val < cache.Length ==> r == cache[val]
      ensures !(0 <= val < cache.Length) ==> fresh(r)
    {
      if 0 <= val < cache.Length {
        r := cache[val];
      } else {
        r := new IntegerArgument(val);
      }
    }
  }

  /* ------------------------------------------------------------------ */
  /* The argument list                                                   */
  /* ------------------------------------------------------------------ */

  /** The arguments `addKeys` appends: one key argument per key, in order. */
  function KeyArguments<K, V>(codec: Codec<K, V>, keys: seq<K>): seq<SingularArgument<K, V>> {
    seq(|keys|, i requires 0 <= i < |keys| => KeyArg(keys[i], codec))
  }

  /** The arguments `addValues` appends: one value argument per value, in order. */
  function ValueArguments<K, V>(codec: Codec<K, V>, values: seq<V>): seq<SingularArgument<K, V>> {
    seq(|values|, i requires 0 <= i < |values| => ValueArg(values[i], codec))
  }

  /** The arguments `add(Map)` appends: key, value, key, value, ... in the
      iteration order of the entries. */
  function Interleaved<K, V>(codec: Codec<K, V>, entries: seq<(K, V)>): seq<SingularArgument<K, V>> {
    if entries == [] then []
    else
      var (k, v) := entries[|entries| - 1];
      Interleaved(codec, entries[..|entries| - 1]) + [KeyArg(k, codec), ValueArg(v, codec)]
  }

  /** A map of n entries adds 2n arguments: entry i's key at 2i and its value
      at 2i + 1. */
  lemma {:induction false} InterleavedAt<K, V>(codec: Codec<K, V>, entries: seq<(K, V)>, i: nat)
    requires i < |entries|
    ensures |Interleaved(codec, entries)| == 2 * |entries|
    ensures Interleaved(codec, entries)[2 * i] == KeyArg(entries[i].0, codec)
    ensures Interleaved(codec, entries)[2 * i + 1] == ValueArg(entries[i].1, codec)
  {
    var init := entries[..|entries| - 1];
    if i < |init| {
      InterleavedAt(codec, init, i);
    } else {
      InterleavedLength(codec, init);
    }
  }

  lemma {:induction false} InterleavedLength<K, V>(codec: Codec<K, V>, entries: seq<(K, V)>)
    ensures |Interleaved(codec, entries)| == 2 * |entries|
  {
    if entries != [] {
      InterleavedLength(codec, entries[..|entries| - 1]);
    }
  }

  const KeysMustNotBeNull := "Keys must not be null"
  const ValuesMustNotBeNull := "Values must not be null"
  const MapMustNotBeNull := "Map must not be null"
  const KeywordMustNotBeNull := "CommandKeyword must not be null"
  const TypeMustNotBeNull := "CommandType must not be null"

  /** `CommandArgs<K, V>`: the codec and the ordered argument list. */
  class CommandArgs<K, V> {
    const codec: Codec<K, V>
    var arguments: seq<SingularArgument<K, V>>

    constructor (codec: Codec<K, V>)
      ensures this.codec == codec && arguments == []
    {
      this.codec := codec;
      arguments := [];
    }

    /** `count()` */
    function Count(): nat
      reads this
    {
      |arguments|
    }

    /** `addKey`: one key argument, last. */
    method AddKey(key: K)
      modifies this
      ensures arguments == old(arguments) + [KeyArg(key, codec)]
      ensures Count() == old(Count()) + 1
    {
      arguments := arguments + [KeyArg(key, codec)];
    }

    /** `addKeys(Iterable)` and `addKeys(K...)`: a null container is rejected
        before anything is added; otherwise one key argument per key, in
        iteration order. */
    method AddKeys(keys: Nullable<seq<K>>) returns (o: Outcome)
      modifies this
      ensures keys.Null? ==> o == Fail(IllegalArgument(KeysMustNotBeNull)) && arguments == old(arguments)
      ensures keys.NonNull? ==> o == Pass && arguments == old(arguments) + KeyArguments(codec, keys.value)
      ensures keys.NonNull? ==> Count() == old(Count()) + |keys.value|
    {
      if keys.Null? {
        return Fail(IllegalArgument(KeysMustNotBeNull));
      }
      var ks := keys.value;
      var i := 0;
      while i < |ks|
        invariant 0 <= i <= |ks|
        invariant arguments == old(arguments) + KeyArguments(codec, ks[..i])
      {
        AddKey(ks[i]);
        assert KeyArguments(codec, ks[..i + 1]) == KeyArguments(codec, ks[..i]) + [KeyArg(ks[i], codec)];
        i := i + 1;
      }
      assert ks[..i] == ks;
      o := Pass;
    }

    /** `addValue`: one value argument, last. */
    method AddValue(value: V)
      modifies this
      ensures arguments == old(arguments) + [ValueArg(value, codec)]
      ensures Count() == old(Count()) + 1
    {
      arguments := arguments + [ValueArg(value, codec)];
    }

    /** `addValues(Iterable)` and `addValues(V...)`. */
    method AddValues(values: Nullable<seq<V>>) returns (o: Outcome)
      modifies this
      ensures values.Null? ==> o == Fail(IllegalArgument(ValuesMustNotBeNull)) && arguments == old(arguments)
      ensures values.NonNull? ==> o == Pass && arguments == old(arguments) + ValueArguments(codec, values.value)
      ensures values.NonNull? ==> Count() == old(Count()) + |values.value|
    {
      if values.Null? {
        return Fail(IllegalArgument(ValuesMustNotBeNull));
      }
      var vs := values.value;
      var i := 0;
      while i < |vs|
        invariant 0 <= i <= |vs|
        invariant arguments == old(arguments) + ValueArguments(codec, vs[..i])
      {
        AddValue(vs[i]);
        assert ValueArguments(codec, vs[..i + 1]) == ValueArguments(codec, vs[..i]) + [ValueArg(vs[i], codec)];
        i := i + 1;
      }
      assert vs[..i] == vs;
      o := Pass;
    }

    /** `add(Map)`: the entries, in iteration order, as key, value, key,
        value, ...; a null map is rejected before anything is added. */
    method AddMap(entries: Nullable<seq<(K, V)>>) returns (o: Outcome)
      modifies this
      ensures entries.Null? ==> o == Fail(IllegalArgument(MapMustNotBeNull)) && arguments == old(arguments)
      ensures entries.NonNull? ==> o == Pass && arguments == old(arguments) + Interleaved(codec, entries.value)
    {
      if entries.Null? {
        return Fail(IllegalArgument(MapMustNotBeNull));
      }
      var es := entries.value;
      var i := 0;
      while i < |es|
        invariant 0 <= i <= |es|
        invariant arguments == old(arguments) + Interleaved(codec, es[..i])
      {
        var (k, v) := es[i];
        AddKey(k);
        AddValue(v);
        assert es[..i + 1][..i] == es[..i];
        i := i + 1;
      }
      assert es[..i] == es;
      o := Pass;
    }

    /** `add(String)`: no null check here; a null string fails at encode. */
    method AddString(s: Nullable<JString>)
      modifies this
      ensures arguments == old(arguments) + [StringArg(s)]
      ensures Count() == old(Count()) + 1
    {
      arguments := arguments + [StringArg(s)];
    }

    /** `add(char[])` */
    method AddChars(cs: Nullable<JString>)
      modifies this
      ensures arguments == old(arguments) + [CharArrayArg(cs)]
      ensures Count() == old(Count()) + 1
    {
      arguments := arguments + [CharArrayArg(cs)];
    }

    /** `add(long)`: the argument comes from `IntegerArgument.of`; `added`
        names it. */
    method AddLong(n: Long, integers: IntegerCache) returns (ghost added: IntegerArgument)
      requires integers.Valid()
      modifies this
      ensures arguments == old(arguments) + [IntegerArg(added)]
      ensures Count() == old(Count()) + 1
      ensures added.val == n
      ensures 0 <= n < integers.cache.Length ==> added == integers.cache[n]
      ensures !(0 <= n < integers.cache.Length) ==> fresh(added)
    {
      var argument := integers.Of(n);
      arguments := arguments + [IntegerArg(argument)];
      added := argument;
    }

    /** `add(byte[])`: no null check here; a null array fails at encode. */
    method AddBytes(value: Nullable<Bytes>)
      modifies this
      ensures arguments == old(arguments) + [BytesArg(value)]
      ensures Count() == old(Count()) + 1
    {
      arguments := arguments + [BytesArg(value)];
    }

    /** `add(CommandKeyword)` and `add(ProtocolKeyword)`: a null keyword is
        rejected; otherwise its bytes, as `add(byte[])`. */
    method AddKeyword(keyword: Nullable<ProtocolKeyword>) returns (o: Outcome)
      modifies this
      ensures keyword.Null? ==> o == Fail(IllegalArgument(KeywordMustNotBeNull)) && arguments == old(arguments)
      ensures keyword.NonNull? ==> o == Pass && arguments == old(arguments) + [BytesArg(NonNull(keyword.value.bytes))]
    {
      if keyword.Null? {
        return Fail(IllegalArgument(KeywordMustNotBeNull));
      }
      AddBytes(NonNull(keyword.value.bytes));
      o := Pass;
    }

    /** `add(CommandType)`: the same, with its own message. */
    method AddCommandType(commandType: Nullable<ProtocolKeyword>) returns (o: Outcome)
      modifies this
      ensures commandType.Null? ==> o == Fail(IllegalArgument(TypeMustNotBeNull)) && arguments == old(arguments)
      ensures commandType.NonNull? ==> o == Pass && arguments == old(arguments) + [BytesArg(NonNull(commandType.value.bytes))]
    {
      if commandType.Null? {
        return Fail(IllegalArgument(TypeMustNotBeNull));
      }
      AddBytes(NonNull(commandType.value.bytes));
      o := Pass;
    }

    /** `encode(buf)`: appends the encoding of every argument, in order, and
        leaves the list as it is. A null payload throws after its '$'. */
    method Encode(target: ByteBuf) returns (o: Outcome)
      modifies target
      ensures target.bytes == old(target.bytes) + EncodingOf(arguments).bytes
      ensures o == if EncodingOf(arguments).completed then Pass else Fail(NullPointer)
      ensures target.released == old(target.released)
      ensures unchanged(this)
    {
      var args := arguments;
      ghost var written := Written([], true);
      var i := 0;
      while i < |args|
        invariant 0 <= i <= |args|
        invariant written == EncodingOf(args[..i]) && written.completed
        invariant target.bytes == old(target.bytes) + written.bytes
        invariant target.released == old(target.released)
      {
        var r := EncodeArgument(target, args[i]);
        FrameCompletesIff(args[i]);
        EncodingOfPrefix(args, i);
        written := Then(written, Frame(args[i]));
        if r.Fail? {
          EncodingOfFailedPrefix(args, i + 1);
          return r;
        }
        i := i + 1;
      }
      assert args[..i] == args;
      o := Pass;
    }
  }
}
