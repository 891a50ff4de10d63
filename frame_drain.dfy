/** What a run of successive non-blocking write() calls does to an installed
    frame. Each call hands the pending bytes to the transport, which accepts
    some prefix of them; a run is described by the counts the transport
    accepted, one per call. */
module FrameDrain {
  import opened ByteBufferModel

  /** The counts a transport may report: at each call, no more than the bytes
      still pending at that point (a count of 0 is a write that made no progress). */
  predicate Admissible(b: Buffer, counts: seq<nat>)
    requires b.Valid()
    decreases |counts|
  {
    |counts| == 0 || (counts[0] <= b.Remaining() && Admissible(b.Advance(counts[0]), counts[1..]))
  }

  /** The buffer after the run: the same bytes, a position that never went back. */
  function Drain(b: Buffer, counts: seq<nat>): (r: Buffer)
    requires b.Valid() && Admissible(b, counts)
    ensures r.Valid() && r.bytes == b.bytes
    ensures b.position <= r.position
    decreases |counts|
  {
    if |counts| == 0 then b else Drain(b.Advance(counts[0]), counts[1..])
  }

  /** The concatenation of the chunks the transport accepted during the run. */
  function Chunks(b: Buffer, counts: seq<nat>): (flushed: seq<Byte>)
    requires b.Valid() && Admissible(b, counts)
    decreases |counts|
  {
    if |counts| == 0 then [] else b.Pending()[..counts[0]] + Chunks(b.Advance(counts[0]), counts[1..])
  }

  /** The flushed chunks are exactly the bytes the position moved over, so
      the bytes written before the run followed by the chunks are the bytes
      written after it. */
  lemma {:induction false} ChunksAreWrittenSlice(b: Buffer, counts: seq<nat>)
    requires b.Valid() && Admissible(b, counts)
    ensures Chunks(b, counts) == b.bytes[b.position..Drain(b, counts).position]
    ensures b.Written() + Chunks(b, counts) == Drain(b, counts).Written()
    decreases |counts|
  {
    if |counts| > 0 {
      var next := b.Advance(counts[0]);
      ChunksAreWrittenSlice(next, counts[1..]);
      var end := Drain(b, counts).position;
      assert b.Pending()[..counts[0]] == b.bytes[b.position..next.position];
      assert b.bytes[b.position..end] == b.bytes[b.position..next.position] + b.bytes[next.position..end];
    }
  }

  /** Round trip for a freshly installed frame: what was flushed is always a
      prefix of the frame, and the writer is complete exactly when what was
      flushed is the whole frame. */
  lemma CompleteIffWholeFrameFlushed(frame: seq<Byte>, counts: seq<nat>)
    requires Admissible(Wrap(frame), counts)
    ensures Chunks(Wrap(frame), counts) <= frame
    ensures !Drain(Wrap(frame), counts).HasRemaining() <==> Chunks(Wrap(frame), counts) == frame
  {
    ChunksAreWrittenSlice(Wrap(frame), counts);
  }

  /** Two runs one after the other are one run: any prefix of an admissible
      run is admissible, the rest of the run is admissible from where the
      prefix left the buffer, and it ends where the whole run ends. */
  lemma {:induction false} DrainSplit(b: Buffer, counts: seq<nat>, k: nat)
    requires b.Valid() && Admissible(b, counts) && k <= |counts|
    ensures Admissible(b, counts[..k])
    ensures Admissible(Drain(b, counts[..k]), counts[k..])
    ensures Drain(b, counts) == Drain(Drain(b, counts[..k]), counts[k..])
    decreases k
  {
    if k == 0 {
      assert counts[..k] == [];
      assert counts[k..] == counts;
    } else {
      var next, rest, prefix := b.Advance(counts[0]), counts[1..], counts[..k];
      DrainSplit(next, rest, k - 1);
      assert prefix[0] == counts[0] && prefix[1..] == rest[..k - 1];
      assert rest[k - 1..] == counts[k..];
    }
  }

  /** The chunks of a run are the chunks of any prefix of it followed by
      those of the rest. */
  lemma {:induction false} ChunksSplit(b: Buffer, counts: seq<nat>, k: nat)
    requires b.Valid() && Admissible(b, counts) && k <= |counts|
    ensures Admissible(b, counts[..k]) && Admissible(Drain(b, counts[..k]), counts[k..])
    ensures Chunks(b, counts) == Chunks(b, counts[..k]) + Chunks(Drain(b, counts[..k]), counts[k..])
    decreases k
  {
    DrainSplit(b, counts, k);
    if k == 0 {
      assert counts[..k] == [];
      assert counts[k..] == counts;
    } else {
      var next, rest, prefix := b.Advance(counts[0]), counts[1..], counts[..k];
      ChunksSplit(next, rest, k - 1);
      assert prefix[0] == counts[0] && prefix[1..] == rest[..k - 1];
      assert rest[k - 1..] == counts[k..];
    }
  }

  /** Completion never comes early: after any prefix of a run on a freshly
      installed frame, the writer is complete exactly when the chunks flushed
      so far make up the whole frame, and they are a prefix of what the whole
      run flushes. */
  lemma NeverCompleteEarly(frame: seq<Byte>, counts: seq<nat>, k: nat)
    requires Admissible(Wrap(frame), counts) && k <= |counts|
    ensures Admissible(Wrap(frame), counts[..k])
    ensures Chunks(Wrap(frame), counts[..k]) <= Chunks(Wrap(frame), counts)
    ensures !Drain(Wrap(frame), counts[..k]).HasRemaining() <==> Chunks(Wrap(frame), counts[..k]) == frame
  {
    ChunksSplit(Wrap(frame), counts, k);
    CompleteIffWholeFrameFlushed(frame, counts[..k]);
  }

  function Concat(pieces: seq<seq<Byte>>): (whole: seq<Byte>)
    decreases |pieces|
  {
    if |pieces| == 0 then [] else pieces[0] + Concat(pieces[1..])
  }

  function Lengths(pieces: seq<seq<Byte>>): (r: seq<nat>)
    ensures |r| == |pieces|
    ensures forall i :: 0 <= i < |r| ==> r[i] == |pieces[i]|
    decreases |pieces|
  {
    if |pieces| == 0 then [] else [|pieces[0]|] + Lengths(pieces[1..])
  }

  /** Every way of splitting the pending bytes into pieces (empty pieces
      included) is a run the transport may produce, and that run flushes
      exactly the pending bytes and leaves the writer complete. */
  lemma {:induction false} EverySplitDrains(b: Buffer, pieces: seq<seq<Byte>>)
    requires b.Valid() && Concat(pieces) == b.Pending()
    ensures Admissible(b, Lengths(pieces))
    ensures Chunks(b, Lengths(pieces)) == b.Pending()
    ensures !Drain(b, Lengths(pieces)).HasRemaining()
    decreases |pieces|
  {
    if |pieces| > 0 {
      var n := |pieces[0]|;
      assert b.Pending() == pieces[0] + Concat(pieces[1..]);
      assert n <= b.Remaining();
      var next := b.Advance(n);
      assert next.Pending() == Concat(pieces[1..]);
      EverySplitDrains(next, pieces[1..]);
      assert Lengths(pieces)[0] == n && Lengths(pieces)[1..] == Lengths(pieces[1..]);
      assert b.Pending()[..n] == pieces[0];
    }
  }
}
