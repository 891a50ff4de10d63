/** The part of a java.nio.ByteBuffer that the SASL frame writer relies on.
    A buffer is seen as the bytes between index 0 and its limit, together with
    its position: the bytes before the position have been handed to the
    transport, the bytes from the position up to the limit are still pending. */
module ByteBufferModel {

  type Byte = bv8

  datatype Buffer = Buffer(bytes: seq<Byte>, position: nat)
  {
    /** java.nio guarantees 0 <= position <= limit. */
    predicate Valid() {
      position <= |bytes|
    }

    function Limit(): (n: nat) {
      |bytes|
    }

    /** ByteBuffer.remaining(): the number of bytes between the position and the limit. */
    function Remaining(): (n: nat)
      requires Valid()
    {
      |bytes| - position
    }

    /** ByteBuffer.hasRemaining(). */
    predicate HasRemaining()
      requires Valid()
    {
      position < |bytes|
    }

    /** The bytes already consumed from this buffer. */
    function Written(): (w: seq<Byte>)
      requires Valid()
    {
      bytes[..position]
    }

    /** The bytes still to be consumed from this buffer. */
    function Pending(): (p: seq<Byte>)
      requires Valid()
    {
      bytes[position..]
    }

    /** ByteBuffer.rewind(): the position goes back to 0, the limit stays,
        so the whole frame is pending again whatever the position was: the
        result is the same as wrapping the frame's bytes afresh. */
    function Rewind(): (r: Buffer)
      ensures r.Valid() && r.bytes == bytes && r == Wrap(bytes)
      ensures r.Written() == [] && r.Pending() == bytes
      ensures !r.HasRemaining() <==> bytes == []
    {
      Buffer(bytes, 0)
    }

    /** What a channel write that accepts n bytes does to the buffer: the n
        bytes after the position move from the pending to the written part;
        contents and limit do not change. */
    function Advance(n: nat): (r: Buffer)
      requires Valid() && n <= Remaining()
      ensures r.Valid() && r.bytes == bytes
      ensures position <= r.position <= Limit()
      ensures r.Written() == Written() + Pending()[..n]
      ensures r.Pending() == Pending()[n..]
      ensures r.Remaining() == Remaining() - n
    {
      Buffer(bytes, position + n)
    }
  }

  /** ByteBuffer.wrap(array): the whole array is pending, the position is 0. */
  function Wrap(a: seq<Byte>): (b: Buffer)
    ensures b.Valid() && b.Limit() == |a|
    ensures b.Written() == [] && b.Pending() == a
    ensures !b.HasRemaining() <==> a == []
  {
    Buffer(a, 0)
  }
}
