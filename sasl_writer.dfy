/** The outgoing side of the SASL framing layer: a writer that owns at most
    one outgoing frame at a time and flushes it through a non-blocking
    transport over as many write() calls as the transport needs. */
module Sasl {
  import opened ByteBufferModel

  /** A Java reference that may be null. */
  datatype Option<T> = None | Some(value: T)

  /** A null array argument is read as an empty one. */
  function OrEmpty(a: Option<seq<Byte>>): (bytes: seq<Byte>) {
    match a
    case None => []
    case Some(given) => given
  }

  /** How an install call ends: the frame is installed, or an
      IllegalStateException reporting how many bytes of the previous frame
      are still unflushed. */
  datatype Install = Installed | IllegalState(remaining: nat)

  /** How write() ends: normally, with the transport's IOException, or with
      the NullPointerException of dereferencing a buffer that was never
      installed. */
  datatype WriteOutcome = Written | TransportError | NullBuffer

  /** The transport's answer to one non-blocking write. */
  datatype Reply = Accepted(count: nat) | IoFailure

  /** The non-blocking transport, reduced to what the writer sees of it: a
      write either fails or accepts some prefix of the bytes offered, possibly
      none of them. Which of these happens is not up to the writer. */
  class Transport {
    /** Every byte the transport has accepted so far, in order. */
    ghost var sent: seq<Byte>

    method Write(pending: seq<Byte>) returns (reply: Reply)
      modifies this
      ensures reply.Accepted? ==> reply.count <= |pending| && sent == old(sent) + pending[..reply.count]
      ensures reply.IoFailure? ==> sent == old(sent)
    {
      var fails: bool :| true;
      if fails {
        reply := IoFailure;
      } else {
        var n: nat :| n <= |pending|;
        reply := Accepted(n);
        sent := sent + pending[..n];
      }
    }
  }

  class SaslWriter {
    const transport: Transport
    /** The frame layout of the concrete writer (its buildBuffer): the buffer
        it builds from an optional header and a payload. */
    const buildBuffer: (Option<seq<Byte>>, seq<Byte>) -> Buffer
    /** The outgoing frame, None while no frame was ever installed. */
    var byteBuffer: Option<Buffer>
    /** The bytes of the installed frame the transport has accepted so far. */
    ghost var flushed: seq<Byte>

    /** The buffer keeps position <= limit, and what was flushed is exactly
        the part of the frame before the position. */
    ghost predicate Valid()
      reads this
    {
      match byteBuffer
      case None => flushed == []
      case Some(b) => b.Valid() && flushed == b.Written()
    }

    constructor (transport: Transport, buildBuffer: (Option<seq<Byte>>, seq<Byte>) -> Buffer)
      ensures Valid() && IsComplete()
      ensures byteBuffer == None
      ensures this.transport == transport && this.buildBuffer == buildBuffer
    {
      this.transport := transport;
      this.buildBuffer := buildBuffer;
      byteBuffer := None;
      flushed := [];
    }

    /** No more data needs to be written out: either no frame was installed
        or the whole installed frame has been flushed. */
    function IsComplete(): (r: bool)
      reads this
      requires Valid()
      ensures r <==> byteBuffer.None? || flushed == byteBuffer.value.bytes
    {
      byteBuffer.None? || !byteBuffer.value.HasRemaining()
    }

    /** Install a frame laid out by buildBuffer from a header and a payload
        (a null payload is an empty one), positioned at its start. Refused
        while the previous frame is not completely flushed. */
    method WithHeaderAndPayload(header: Option<seq<Byte>>, payload: Option<seq<Byte>>) returns (r: Install)
      requires Valid()
      modifies this
      ensures Valid()
      ensures r.Installed? <==> old(IsComplete())
      ensures r.IllegalState? ==>
        old(byteBuffer).Some? && r.remaining == old(byteBuffer.value.Remaining()) && r.remaining > 0 &&
        byteBuffer == old(byteBuffer) && flushed == old(flushed)
      ensures r.Installed? ==>
        byteBuffer.Some? && byteBuffer.value.bytes == buildBuffer(header, OrEmpty(payload)).bytes &&
        byteBuffer.value.position == 0 && flushed == [] &&
        byteBuffer.value.Remaining() == |buildBuffer(header, OrEmpty(payload)).bytes| &&
        (IsComplete() <==> buildBuffer(header, OrEmpty(payload)).bytes == [])
    {
      if !IsComplete() {
        return IllegalState(byteBuffer.value.Remaining());
      }
      var p := payload;
      if p.None? {
        p := Some([]);
      }
      byteBuffer := Some(buildBuffer(header, p.value).Rewind());
      flushed := [];
      r := Installed;
    }

    /** Install a complete frame as given (a null array is an empty frame),
        positioned at its start. Refused while the previous frame is not
        completely flushed. */
    method WithFrameBytes(frameBytes: Option<seq<Byte>>) returns (r: Install)
      requires Valid()
      modifies this
      ensures Valid()
      ensures r.Installed? <==> old(IsComplete())
      ensures r.IllegalState? ==>
        old(byteBuffer).Some? && r.remaining == old(byteBuffer.value.Remaining()) && r.remaining > 0 &&
        byteBuffer == old(byteBuffer) && flushed == old(flushed)
      ensures r.Installed? ==>
        byteBuffer == Some(Wrap(OrEmpty(frameBytes))) && flushed == [] &&
        (IsComplete() <==> OrEmpty(frameBytes) == [])
    {
      if !IsComplete() {
        return IllegalState(byteBuffer.value.Remaining());
      }
      var frame := frameBytes;
      if frame.None? {
        frame := Some([]);
      }
      byteBuffer := Some(Wrap(frame.value));
      flushed := [];
      r := Installed;
    }

    /** One non-blocking write: when bytes remain, offer them all to the
        transport and advance the position by exactly what it accepted. The
        buffer is dereferenced without a null check. */
    method Write() returns (outcome: WriteOutcome)
      requires Valid()
      modifies this, transport
      ensures Valid()
      ensures outcome == NullBuffer <==> old(byteBuffer).None?
      ensures outcome != Written ==>
        byteBuffer == old(byteBuffer) && flushed == old(flushed) && transport.sent == old(transport.sent)
      ensures old(byteBuffer).Some? && !old(byteBuffer.value.HasRemaining()) ==>
        outcome == Written && byteBuffer == old(byteBuffer) && transport.sent == old(transport.sent)
      ensures outcome == Written ==>
        old(byteBuffer).Some? && byteBuffer.Some? &&
        exists n: nat :: n <= old(byteBuffer.value.Remaining()) &&
          byteBuffer.value == old(byteBuffer.value).Advance(n) &&
          flushed == old(flushed) + old(byteBuffer.value.Pending())[..n] &&
          transport.sent == old(transport.sent) + old(byteBuffer.value.Pending())[..n]
    {
      if byteBuffer.None? {
        return NullBuffer;
      }
      var b := byteBuffer.value;
      ghost var accepted := 0;
      if b.HasRemaining() {
        var reply := transport.Write(b.Pending());
        if reply.IoFailure? {
          return TransportError;
        }
        accepted := reply.count;
        byteBuffer := Some(b.Advance(reply.count));
        flushed := flushed + b.Pending()[..reply.count];
      } else {
        assert b.Pending()[..0] == [] && b.Advance(0) == b;
      }
      assert byteBuffer.value == b.Advance(accepted);
      outcome := Written;
    }
  }
}
