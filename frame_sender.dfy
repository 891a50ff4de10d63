/** How an event loop drives a SaslWriter: install a frame, then call
    write() until the writer is complete. The loop gives up when the
    transport fails or accepts nothing, where a real event loop would wait
    for the channel to become writable again. What it proves end to end:
    the transport receives a prefix of the frame, and the whole frame
    exactly when the writer ends complete. */
module SaslDriver {
  import opened ByteBufferModel
  import opened Sasl

  /** Call write() while the installed frame has bytes remaining and each
      call makes progress. Whatever the transport accepts is what the writer
      records as flushed, and the frame itself never changes. */
  method Flush(w: SaslWriter) returns (done: bool)
    requires w.Valid()
    modifies w, w.transport
    ensures w.Valid() && w.byteBuffer.Some? == old(w.byteBuffer).Some?
    ensures w.byteBuffer.Some? ==> w.byteBuffer.value.bytes == old(w.byteBuffer).value.bytes
    ensures old(w.flushed) <= w.flushed
    ensures w.transport.sent == old(w.transport.sent) + w.flushed[|old(w.flushed)|..]
    ensures done <==> w.IsComplete()
  {
    ghost var s0, f0 := w.transport.sent, w.flushed;
    done := w.IsComplete();
    while !done
      invariant w.Valid() && w.byteBuffer.Some? == old(w.byteBuffer).Some?
      invariant w.byteBuffer.Some? ==> w.byteBuffer.value.bytes == old(w.byteBuffer).value.bytes
      invariant f0 <= w.flushed
      invariant w.transport.sent == s0 + w.flushed[|f0|..]
      invariant done <==> w.IsComplete()
      decreases if w.byteBuffer.Some? then w.byteBuffer.value.Remaining() else 0
    {
      var before := w.byteBuffer.value.position;
      var outcome := w.Write();
      if outcome != Written || w.byteBuffer.value.position == before {
        break;
      }
      done := w.IsComplete();
    }
  }

  /** withFrameBytes followed by flushing: when the install is accepted and
      the writer ends complete, the transport has received exactly the frame
      (an empty one for null); otherwise a prefix of it. */
  method SendFrameBytes(w: SaslWriter, frameBytes: Option<seq<Byte>>) returns (r: Install, done: bool)
    requires w.Valid()
    modifies w, w.transport
    ensures w.Valid()
    ensures r.Installed? <==> old(w.IsComplete())
    ensures r.IllegalState? ==>
      !done && w.byteBuffer == old(w.byteBuffer) && w.flushed == old(w.flushed) &&
      w.transport.sent == old(w.transport.sent)
    ensures r.Installed? ==> w.byteBuffer.Some? && w.byteBuffer.value.bytes == OrEmpty(frameBytes)
    ensures r.Installed? ==> (done <==> w.IsComplete())
    ensures r.Installed? ==> w.transport.sent == old(w.transport.sent) + w.flushed && w.flushed <= OrEmpty(frameBytes)
    ensures r.Installed? ==> (done <==> w.transport.sent == old(w.transport.sent) + OrEmpty(frameBytes))
  {
    r := w.WithFrameBytes(frameBytes);
    if r.IllegalState? {
      return r, false;
    }
    done := Flush(w);
  }

  /** withHeaderAndPayload followed by flushing: when the install is
      accepted and the writer ends complete, the transport has received
      exactly the frame buildBuffer laid out (with an empty payload for
      null); otherwise a prefix of it. */
  method SendHeaderAndPayload(w: SaslWriter, header: Option<seq<Byte>>, payload: Option<seq<Byte>>)
    returns (r: Install, done: bool)
    requires w.Valid()
    modifies w, w.transport
    ensures w.Valid()
    ensures r.Installed? <==> old(w.IsComplete())
    ensures r.IllegalState? ==>
      !done && w.byteBuffer == old(w.byteBuffer) && w.flushed == old(w.flushed) &&
      w.transport.sent == old(w.transport.sent)
    ensures r.Installed? ==>
      w.byteBuffer.Some? && w.byteBuffer.value.bytes == w.buildBuffer(header, OrEmpty(payload)).bytes
    ensures r.Installed? ==> (done <==> w.IsComplete())
    ensures r.Installed? ==>
      w.transport.sent == old(w.transport.sent) + w.flushed &&
      w.flushed <= w.buildBuffer(header, OrEmpty(payload)).bytes
    ensures r.Installed? ==>
      (done <==> w.transport.sent == old(w.transport.sent) + w.buildBuffer(header, OrEmpty(payload)).bytes)
  {
    r := w.WithHeaderAndPayload(header, payload);
    if r.IllegalState? {
      return r, false;
    }
    done := Flush(w);
  }
}
