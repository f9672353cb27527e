/** The part of Netty's `ByteBuf` that the encoder uses: a buffer that is
    only ever appended to, and a release flag. Allocation, capacity, reader
    indices and reference counts are not modelled; `bytes` is the readable
    region, which for a buffer that is only written to is everything written. */
module Netty {
  import opened Resp

  class ByteBuf {
    var bytes: Bytes
    ghost var released: bool

    /** `alloc().buffer(...)`: a fresh, empty buffer. */
    constructor ()
      ensures bytes == [] && !released
    {
      bytes := [];
      released := false;
    }

    /** `writeByte(b)` */
    method WriteByte(b: byte)
      modifies this
      ensures bytes == old(bytes) + [b] && released == old(released)
    {
      bytes := bytes + [b];
    }

    /** `writeBytes(byte[])`, `writeBytes(ByteBuffer)` and `writeBytes(ByteBuf)`
        of the given readable bytes. */
    method WriteBytes(bs: Bytes)
      modifies this
      ensures bytes == old(bytes) + bs && released == old(released)
    {
      bytes := bytes + bs;
    }

    /** `release()` */
    method Release()
      modifies this
      ensures released && bytes == old(bytes)
    {
      released := true;
    }
  }
}
