# SASL frame writer

A model of `SaslWriter`, the outgoing half of Thrift's non-blocking SASL
framing layer. The writer owns at most one outgoing frame, held in a nullable
`ByteBuffer`. A frame is installed either through the concrete writer's
frame layout (`withHeaderAndPayload`, which calls the abstract `buildBuffer`
and rewinds the result) or as raw bytes (`withFrameBytes`). A new frame is
refused with an `IllegalStateException` that reports the unflushed byte count
while the previous one still has bytes remaining. Each non-blocking `write()`
offers the remaining bytes to the transport, which accepts some prefix of
them and advances the buffer's position. `isComplete()` holds when no buffer
is installed or none of its bytes remain.

Files:

- `byte_buffer.dfy` (module `ByteBufferModel`): a `java.nio.ByteBuffer` seen
  as the bytes between index 0 and its limit plus a position, with
  `remaining`, `hasRemaining`, `rewind`, `wrap`, and the position advance a
  channel write performs.
- `sasl_writer.dfy` (module `Sasl`): the writer as a class whose
  `byteBuffer` field is `Option<Buffer>` (None is Java's null), with a ghost
  `flushed` sequence holding the bytes of the current frame the transport has
  accepted. `Valid()` says the position lies within `[0, limit]` and that
  `flushed` is exactly the part of the frame before the position. The
  transport is a class whose `Write` either fails or accepts a prefix of what
  it is offered, and which records every accepted byte in a ghost `sent`.
- `frame_drain.dfy` (module `FrameDrain`): the effect of a run of successive
  `write()` calls on one installed frame. A run is described by the byte
  counts the transport accepted. It is stated as pure functions, with the
  round-trip and "never complete early" lemmas.
- `frame_sender.dfy` (module `SaslDriver`): a client of the writer, not
  part of it, standing for the event loop that drives it. It installs a frame and calls `write()` until the writer is
  complete, the transport fails, or a call makes no progress. On the class
  itself, it proves that the transport receives a prefix of the frame, and
  the whole frame exactly when the writer ends complete.

Exceptions become result values. The install methods return `Installed` or
`IllegalState(remaining)`. `write()` returns `Written`, `TransportError` (the
transport's `IOException`) or `NullBuffer`.

`write()` dereferences `byteBuffer` without a null check
(`SaslWriter.java:83`), unlike `isComplete()`. So calling `write()` before any
frame was installed throws a `NullPointerException`: a driver that calls
`write()` before installing a frame gets this exception rather than a no-op.
The model keeps that behaviour: the call ends in the distinct `NullBuffer`
outcome and changes nothing.

## Model

| member | source | states |
|---|---|---|
| `ByteBufferModel.Buffer.Rewind` | common/src/java/org/apache/thrift/transport/sasl/SaslWriter.java:54 | rewinding keeps the bytes and the limit and makes the whole frame pending again, whatever the position was, so the rewound frame equals the wrapped frame `Wrap(bytes)`; the result has nothing remaining exactly when the frame is empty |
| `ByteBufferModel.Buffer.Advance` | common/src/java/org/apache/thrift/transport/sasl/SaslWriter.java:84 | accepting n of the remaining bytes leaves contents and limit unchanged; the position moves forward by n and stays within the limit; exactly the first n pending bytes move to the written part |
| `ByteBufferModel.Wrap` | common/src/java/org/apache/thrift/transport/sasl/SaslWriter.java:72 | a wrapped array is pending in full with nothing written; it has nothing remaining exactly when the array is empty |
| `Sasl.Transport.Write` | common/src/java/org/apache/thrift/transport/sasl/SaslWriter.java:84 | the transport either fails and accepts nothing, or accepts a prefix of the offered bytes of length at most the number offered, appending it to what it has sent |
| `Sasl.SaslWriter.constructor` | common/src/java/org/apache/thrift/transport/sasl/SaslWriter.java:32-34 | a new writer has no buffer installed and is complete |
| `Sasl.SaslWriter.IsComplete` | common/src/java/org/apache/thrift/transport/sasl/SaslWriter.java:92-94 | complete exactly when no buffer is installed or every byte of the installed frame has been flushed |
| `Sasl.SaslWriter.WithHeaderAndPayload` | common/src/java/org/apache/thrift/transport/sasl/SaslWriter.java:46-56 | installs exactly when the writer was complete; otherwise reports the positive remaining byte count and changes neither buffer nor position; on success the buffer holds buildBuffer(header, payload or empty when null) at position 0 with nothing flushed, so everything remains; it is complete at once exactly when that frame is empty |
| `Sasl.SaslWriter.WithFrameBytes` | common/src/java/org/apache/thrift/transport/sasl/SaslWriter.java:65-74 | same refusal as WithHeaderAndPayload; on success the buffer is the given bytes (empty when null) at position 0, and an empty frame leaves the writer complete |
| `Sasl.SaslWriter.Write` | common/src/java/org/apache/thrift/transport/sasl/SaslWriter.java:82-86 | with no buffer the call fails with NullBuffer and changes nothing; with nothing remaining it is a no-op; otherwise, when the transport accepts n bytes (n at most what remains), the position advances by exactly n, the contents stay, and the same n bytes are appended both to what was flushed and to what the transport sent; a transport failure changes nothing |
| `SaslDriver.Flush` | common/src/java/org/apache/thrift/transport/sasl/SaslWriter.java:82-94 | repeated write() calls keep the installed frame unchanged, and what the transport receives across them is exactly what the writer adds to flushed; the loop ends with `done` exactly when the writer is complete |
| `SaslDriver.SendFrameBytes` | common/src/java/org/apache/thrift/transport/sasl/SaslWriter.java:65-94 | withFrameBytes then write() until done: a refused install sends nothing and leaves the buffer and what was flushed as they were; after an accepted one the installed buffer holds the frame (empty for null), `done` is exactly the writer's completeness, and the transport receives a prefix of the frame, all of it exactly when the writer ends complete |
| `SaslDriver.SendHeaderAndPayload` | common/src/java/org/apache/thrift/transport/sasl/SaslWriter.java:46-94 | withHeaderAndPayload then write() until done: a refused install sends nothing and leaves the buffer and what was flushed as they were; after an accepted one the installed buffer holds buildBuffer(header, payload or empty), `done` is exactly the writer's completeness, and the transport receives a prefix of that frame, all of it exactly when the writer ends complete |
| `FrameDrain.Drain` | common/src/java/org/apache/thrift/transport/sasl/SaslWriter.java:82-86 | across any run of writes the contents never change and the position never decreases or passes the limit |
| `FrameDrain.ChunksAreWrittenSlice` | common/src/java/org/apache/thrift/transport/sasl/SaslWriter.java:82-86 | the chunks accepted during a run, concatenated, are exactly the bytes between the starting and final positions; the bytes written before plus the chunks are the bytes written after |
| `FrameDrain.CompleteIffWholeFrameFlushed` | common/src/java/org/apache/thrift/transport/sasl/SaslWriter.java:72-94 | after installing a frame by either path (both leave `Wrap(frame)`) and any run of writes, what was flushed is a prefix of the frame, and nothing remains exactly when what was flushed is the whole frame |
| `FrameDrain.DrainSplit` | common/src/java/org/apache/thrift/transport/sasl/SaslWriter.java:82-86 | a prefix of a possible run is itself possible, the rest of the run is possible from where the prefix ends, and the two together end where the whole run ends |
| `FrameDrain.ChunksSplit` | common/src/java/org/apache/thrift/transport/sasl/SaslWriter.java:82-86 | the chunks of a run are those of any prefix of it followed by those of the rest |
| `FrameDrain.NeverCompleteEarly` | common/src/java/org/apache/thrift/transport/sasl/SaslWriter.java:82-94 | after every prefix of a run on a freshly installed frame, the chunks so far are a prefix of the run's chunks, and the writer is complete exactly when they already form the whole frame, never earlier |
| `FrameDrain.EverySplitDrains` | common/src/java/org/apache/thrift/transport/sasl/SaslWriter.java:82-94 | every split of the pending bytes into pieces, empty pieces included, is a run the transport may produce; that run flushes exactly the pending bytes and leaves nothing remaining |

## Left out

- `SaslHeader` (the read side) is an interface with no implementation in this code, so it has no behaviour to model: `payloadSize`, `toBytes`, `isComplete`, `clear`, `read` and `readAll` are not part of this model.
- Concrete frame layouts: `buildBuffer` is abstract, so it is a function value given to the constructor. No byte layout (such as a 4-byte length prefix) is assumed. Properties that depend on a layout, such as the frame length for an empty payload, are therefore not stated.
- A `buildBuffer` that returns null, which would make `rewind()` throw, is not modelled: the layout function always returns a buffer.
- `ByteBuffer.wrap` shares the caller's array. The model stores a copy of the bytes, so later changes the caller makes to that array are not reflected.
- Java's `withHeaderAndPayload` and `withFrameBytes` return `this` for call chaining. The model returns the install outcome instead.
- Exception message texts are not modelled; only the remaining byte count they report is.
- The transport (`TNonblockingTransport.write`) is a nondeterministic step: it fails without consuming anything, or it accepts some prefix of the offered bytes. Sockets, partial-write timing and a channel that consumes bytes and then fails are not modelled.
- Bytes between a buffer's limit and its capacity are not modelled, since the writer never looks at them.
- `SaslDriver.Flush` stops at the first transport failure or write that accepts nothing, where a real event loop would wait for the channel and retry; waiting is not modelled.
- Concurrency and connection lifecycle: the writer is driven by a single event loop and has no locking.
