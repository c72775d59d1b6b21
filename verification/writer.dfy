/**
 * `OutputStreamWrapper`: typed big- and little-endian writes and byte
 * arrays through a ring of segments that holds what has been written to
 * the wrapper but not yet handed to the output stream.
 *
 * Every operation is stated against `Emitted(w)`: what the output stream
 * has received followed by what is still buffered.  Each write appends its
 * encoding to that sequence; `commit` and `flush` only move bytes from the
 * buffer to the output, never changing it.
 */
module OutputStreamWrapper {
  import opened Bytes
  import opened Wrappers
  import opened ConvertUtils
  import opened IOBuffer
  import opened IOBufferPool
  import opened BufferQueue

  /** The wrapper's fields: `head` and the private `pool` (as a queue), `size`, and what `outputStream` has received. */
  datatype Writer = Writer(queue: Queue, size: int, out: seq<byte>) {
    /** The ring is settled and `size` counts the bytes it holds. */
    predicate Valid() {
      queue.Valid() && size == Buffered(queue.ring)
    }
  }

  /** Everything written to the wrapper, in order: what the output has received, then what is buffered. */
  function Emitted(w: Writer): seq<byte>
    requires w.Valid()
  {
    w.out + Content(w.queue.ring)
  }

  /** `new OutputStreamWrapper(outputStream)`: nothing buffered or written, a fresh pool. */
  function Open(): (w: Writer)
    ensures w.Valid() && w.size == 0 && Emitted(w) == []
  {
    Writer(Queue([], EmptyPool), 0, [])
  }

  /** The output never loses bytes: `a` is a prefix of `b`. */
  predicate IsPrefix(a: seq<byte>, b: seq<byte>) {
    |a| <= |b| && b[..|a|] == a
  }

  // -----------------------------------------------------------------------
  // Moving bytes to the output.
  // -----------------------------------------------------------------------

  /**
   * `realWrite(needWriteCount)`: hands the first `n` buffered bytes to the
   * output, segment by segment from the head, recycling drained heads.
   * What has been written as a whole does not change.
   */
  function RealWrite(w: Writer, n: int): (res: Writer)
    requires w.Valid() && n <= w.size
    ensures res.Valid() && Drained(w.queue.ring, res.queue.ring)
    ensures Emitted(res) == Emitted(w)
    ensures |res.out| == |w.out| + (if n > 0 then n else 0)
    ensures res.size == w.size - (if n > 0 then n else 0)
    decreases n
  {
    if n <= 0 then
      w
    else
      var w1 := WriteFromHead(w, n);
      var res := RealWrite(w1, n - (|w1.out| - |w.out|));
      DrainedTrans(w.queue.ring, w1.queue.ring, res.queue.ring);
      res
  }

  /** One round of the loop of `realWrite`: what the head holds, up to `n` bytes, goes to the output. */
  function WriteFromHead(w: Writer, n: int): (res: Writer)
    requires w.Valid() && 0 < n <= w.size
    ensures res.Valid() && Drained(w.queue.ring, res.queue.ring)
    ensures Emitted(res) == Emitted(w)
    ensures |w.out| < |res.out| <= |w.out| + n && res.size == w.size - (|res.out| - |w.out|)
  {
    BufferedIsLength(w.queue.ring);
    HeadNotEmpty(w.queue.ring);
    var head := w.queue.ring[0];
    var m := Min(n, head.Count());
    var chunk := head.data[head.pos..head.pos + m];
    var q := Advance(w.queue, m);
    WriteFromHeadMoves(w.out, w.queue.ring, q.ring, m);
    BufferedIsLength(q.ring);
    Writer(q, w.size - m, w.out + chunk)
  }

  /** The bytes one round hands over, followed by what the ring keeps, are what the ring held. */
  lemma WriteFromHeadMoves(out: seq<byte>, ring: seq<Segment>, after: seq<Segment>, m: nat)
    requires WellFormed(ring) && WellFormed(after) && ring != [] && m <= ring[0].Count()
    requires Content(after) == Content(ring)[m..]
    ensures (out + ring[0].data[ring[0].pos..ring[0].pos + m]) + Content(after) == out + Content(ring)
  {
    var head := ring[0];
    var c := Content(ring);
    assert c == head.Readable() + Content(ring[1..]);
    SliceFront(head.data, head.pos, head.limit, m);
    PrefixOfFront(head.Readable(), Content(ring[1..]), m);
    TakeDrop(c, m);
    AppendAssoc(out, c[..m], c[m..]);
  }

  /**
   * What `RealWrite` hands over is the front of the buffered content: the
   * output gains the first `n` buffered bytes and the buffer keeps the
   * rest.
   */
  lemma RealWriteMovesFront(w: Writer, n: int)
    requires w.Valid() && 0 < n <= w.size
    ensures n <= |Content(w.queue.ring)|
    ensures RealWrite(w, n).out == w.out + Content(w.queue.ring)[..n]
    ensures Content(RealWrite(w, n).queue.ring) == Content(w.queue.ring)[n..]
  {
    var res := RealWrite(w, n);
    BufferedIsLength(w.queue.ring);
    MoveSplit(res.out, Content(res.queue.ring), w.out, Content(w.queue.ring), n);
  }

  /**
   * `commit()`: hands everything buffered to the output except a tail that
   * still has room, which is kept for later writes.  With nothing buffered
   * it does nothing; a full tail goes out with the rest.  Afterwards at most
   * one segment remains, it is not full, and fewer than BUFFER_SIZE bytes
   * are buffered.
   */
  function Commit(w: Writer): (res: Writer)
    requires w.Valid()
    ensures res.Valid() && Emitted(res) == Emitted(w) && IsPrefix(w.out, res.out)
    ensures w.size == 0 ==> res == w
    ensures w.size > 0 && Last(w.queue.ring).limit < BUFFER_SIZE ==> res.out + Last(w.queue.ring).Readable() == Emitted(w)
    ensures w.size > 0 && Last(w.queue.ring).limit == BUFFER_SIZE ==> res.out == Emitted(w)
    ensures |res.queue.ring| <= 1
    ensures res.queue.ring != [] ==> res.queue.ring[0].limit < BUFFER_SIZE
    ensures res.size < BUFFER_SIZE
  {
    BufferedIsLength(w.queue.ring);
    if w.size == 0 then
      if w.queue.ring != [] then
        CommitKeepsEmptyTail(w.queue.ring);
        w
      else
        w
    else
      var tail := Last(w.queue.ring);
      var keep := if tail.limit < BUFFER_SIZE then tail.Count() else 0;
      CommitCount(w.queue.ring);
      var res := RealWrite(w, w.size - keep);
      CommitLeaves(w.queue.ring, res.queue.ring);
      SamePrefix(res.out, Content(res.queue.ring), w.out, Content(w.queue.ring));
      CommitSendsFront(w, res, keep);
      res
  }

  /**
   * What a commit hands over is everything before the kept tail: when the
   * output has gained all but `keep` bytes, the output followed by the
   * tail's bytes (or by nothing, when the tail is full and kept nothing) is
   * everything written.
   */
  lemma CommitSendsFront(w: Writer, res: Writer, keep: int)
    requires w.Valid() && res.Valid() && w.queue.ring != []
    requires keep == if Last(w.queue.ring).limit < BUFFER_SIZE then Last(w.queue.ring).Count() else 0
    requires Emitted(res) == Emitted(w) && |res.out| == |w.out| + (w.size - keep)
    ensures Last(w.queue.ring).limit < BUFFER_SIZE ==> res.out + Last(w.queue.ring).Readable() == Emitted(w)
    ensures Last(w.queue.ring).limit == BUFFER_SIZE ==> res.out == Emitted(w)
  {
    var ring := w.queue.ring;
    ContentReplaceLast(ring, Last(ring));
    BufferedIsLength(ring);
    CommitCount(ring);
    BufferedIsLength(ring[..|ring| - 1]);
    var front := w.out + Content(ring[..|ring| - 1]);
    AppendAssoc(w.out, Content(ring[..|ring| - 1]), Last(ring).Readable());
    SamePrefix(res.out, Content(res.queue.ring), front, Last(ring).Readable());
    if Last(ring).limit == BUFFER_SIZE {
      SamePrefix(res.out, Content(res.queue.ring), Emitted(w), []);
    }
  }

  /** A settled ring holding no bytes is at most one empty segment, with both cursors 0. */
  lemma CommitKeepsEmptyTail(ring: seq<Segment>)
    requires Settled(ring) && Buffered(ring) == 0 && ring != []
    ensures |ring| == 1 && ring[0].limit == 0
  {
    assert ring[0].pos == ring[0].limit;
  }

  /** The tail's count is part of the buffered total, and the rest of it sits in the segments before the tail. */
  lemma CommitCount(ring: seq<Segment>)
    requires WellFormed(ring) && ring != []
    ensures Last(ring).Count() <= Buffered(ring)
    ensures WellFormed(ring[..|ring| - 1])
    ensures Buffered(ring) == Buffered(ring[..|ring| - 1]) + Last(ring).Count()
  {
    ContentReplaceLast(ring, Last(ring));
    BufferedIsLength(ring);
    BufferedIsLength(ring[..|ring| - 1]);
  }

  /**
   * Draining all but the bytes of a tail that has room leaves at most that
   * tail; draining everything from a ring with a full tail leaves nothing.
   */
  lemma CommitLeaves(ring: seq<Segment>, after: seq<Segment>)
    requires Settled(ring) && Settled(after) && ring != [] && Drained(ring, after)
    requires Buffered(after) == if Last(ring).limit < BUFFER_SIZE then Last(ring).Count() else 0
    ensures |after| <= 1
    ensures after != [] ==> after[0].limit < BUFFER_SIZE
  {
    if |after| >= 2 {
      DrainedHoldsMore(ring, after);
    } else if |after| == 1 {
      assert after[1..] == [];
    }
  }

  /** A drained ring of two segments or more holds more than the tail it shares with the original. */
  lemma DrainedHoldsMore(ring: seq<Segment>, after: seq<Segment>)
    requires WellFormed(ring) && Settled(after) && |after| >= 2 && Drained(ring, after)
    ensures ring != [] && Buffered(after) > Last(ring).Count()
  {
    assert Last(after) == Last(ring) by {
      assert after[|after| - 1] == ring[|ring| - |after| + |after| - 1];
    }
    assert after[0].pos < after[0].limit;
    BufferedEnds(after);
  }

  /**
   * `flush()`: hands everything buffered to the output.  Afterwards the
   * output holds everything written and nothing is buffered.
   */
  function Flush(w: Writer): (res: Writer)
    requires w.Valid()
    ensures res.Valid() && res.size == 0
    ensures res.out == Emitted(w) && Content(res.queue.ring) == []
  {
    BufferedIsLength(w.queue.ring);
    if w.size == 0 then
      w
    else
      var res := RealWrite(w, w.size);
      BufferedIsLength(res.queue.ring);
      res
  }

  // -----------------------------------------------------------------------
  // Typed writes.  `getBuffer(n)` makes room for the whole value in the
  // tail, so its bytes go into one segment; byte and short writes commit,
  // int and long writes leave their bytes buffered.
  // -----------------------------------------------------------------------

  /** Copies up to BUFFER_SIZE bytes into a tail with room for all of them. */
  function Store(w: Writer, bytes: seq<byte>): (res: Writer)
    requires w.Valid() && 1 <= |bytes| <= BUFFER_SIZE
    ensures res.Valid() && res.out == w.out
    ensures Emitted(res) == Emitted(w) + bytes
  {
    var q := GetBuffer(w.queue, |bytes|).value;
    var q' := FillTail(q, bytes);
    BufferedIsLength(w.queue.ring);
    BufferedIsLength(q'.ring);
    AppendAssoc(w.out, Content(w.queue.ring), bytes);
    Writer(q', w.size + |bytes|, w.out)
  }

  /** `writeByte(content)`. */
  function WriteByte(w: Writer, b: byte): (res: Writer)
    requires w.Valid()
    ensures res.Valid() && Emitted(res) == Emitted(w) + [b]
    ensures IsPrefix(w.out, res.out) && res.size < BUFFER_SIZE
  {
    Commit(Store(w, [b]))
  }

  /** `writeShort(content)`: two bytes, big-endian. */
  function WriteShort(w: Writer, v: bv16): (res: Writer)
    requires w.Valid()
    ensures res.Valid() && Emitted(res) == Emitted(w) + Short2Bytes(v)
    ensures IsPrefix(w.out, res.out) && res.size < BUFFER_SIZE
  {
    Commit(Store(w, Short2Bytes(v)))
  }

  /** `writeInt(content)`: four bytes, big-endian, left in the buffer. */
  function WriteInt(w: Writer, v: bv32): (res: Writer)
    requires w.Valid()
    ensures res.Valid() && Emitted(res) == Emitted(w) + Int2Bytes(v)
    ensures res.out == w.out
  {
    Store(w, Int2Bytes(v))
  }

  /** `writeLong(content)`: eight bytes, big-endian, left in the buffer. */
  function WriteLong(w: Writer, v: bv64): (res: Writer)
    requires w.Valid()
    ensures res.Valid() && Emitted(res) == Emitted(w) + Long2Bytes(v)
    ensures res.out == w.out
  {
    Store(w, Long2Bytes(v))
  }

  /** `writeShortLE(content)`: the byte-reversed value, big-endian, which is `content` little-endian. */
  function WriteShortLE(w: Writer, v: bv16): (res: Writer)
    requires w.Valid()
    ensures res.Valid() && Emitted(res) == Emitted(w) + Short2BytesLE(v)
    ensures IsPrefix(w.out, res.out) && res.size < BUFFER_SIZE
  {
    WriteShort(w, ReverseBytesShort(v))
  }

  /** `writeIntLE(content)`. */
  function WriteIntLE(w: Writer, v: bv32): (res: Writer)
    requires w.Valid()
    ensures res.Valid() && Emitted(res) == Emitted(w) + Int2BytesLE(v)
    ensures res.out == w.out
  {
    WriteInt(w, ReverseBytesInt(v))
  }

  /** `writeLongLE(content)`. */
  function WriteLongLE(w: Writer, v: bv64): (res: Writer)
    requires w.Valid()
    ensures res.Valid() && Emitted(res) == Emitted(w) + Long2BytesLE(v)
    ensures res.out == w.out
  {
    WriteLong(w, ReverseBytesLong(v))
  }

  // -----------------------------------------------------------------------
  // Byte arrays.
  // -----------------------------------------------------------------------

  /**
   * The loop of `writeBytes` with the copy the method evidently intends:
   * each round asks for a tail with room for one byte and copies as much
   * as fits at the tail's write cursor.  The content grows by exactly
   * `c[off..limit]`.
   */
  function CopyChunks(q: Queue, c: seq<byte>, off: nat, limit: nat): (r: Queue)
    requires q.Valid() && off <= limit <= |c|
    ensures r.Valid()
    decreases limit - off
  {
    if off == limit then
      q
    else
      var p := CopyRound(q, c, off, limit);
      CopyChunks(p.queue, c, off + p.count, limit)
  }

  /** The copy loop appends `c[off..limit]`, round after round. */
  lemma {:induction false} CopyChunksAppends(q: Queue, c: seq<byte>, off: nat, limit: nat)
    requires q.Valid() && off <= limit <= |c|
    ensures Extends(q, CopyChunks(q, c, off, limit), c, off, limit)
    decreases limit - off
  {
    if off < limit {
      var p := CopyRound(q, c, off, limit);
      var mid := off + p.count;
      RoundFacts(q, c, off, limit);
      ChunksStep(q, c, off, limit);
      CopyChunksAppends(p.queue, c, mid, limit);
      ChunksFacts(p.queue, c, mid, limit);
      ExtendsChain(q, p.queue, CopyChunks(p.queue, c, mid, limit), c, off, mid, limit);
    }
  }

  /** What one round guarantees, as plain facts about it. */
  lemma RoundFacts(q: Queue, c: seq<byte>, off: nat, limit: nat)
    requires q.Valid() && off < limit <= |c|
    ensures var p := CopyRound(q, c, off, limit);
      p.queue.Valid() && 1 <= p.count <= limit - off && Extends(q, p.queue, c, off, off + p.count)
  {
  }

  /** The copy loop is one round followed by the loop over what is left. */
  lemma ChunksStep(q: Queue, c: seq<byte>, off: nat, limit: nat)
    requires q.Valid() && off < limit <= |c|
    ensures var p := CopyRound(q, c, off, limit);
      CopyChunks(q, c, off, limit) == CopyChunks(p.queue, c, off + p.count, limit)
  {
  }

  /** The copy loop leaves a valid queue, as a plain fact about it. */
  lemma ChunksFacts(q: Queue, c: seq<byte>, off: nat, limit: nat)
    requires q.Valid() && off <= limit <= |c|
    ensures CopyChunks(q, c, off, limit).Valid()
  {
  }

  /** `r` holds the content of `q` followed by `c[lo..hi]`. */
  predicate Extends(q: Queue, r: Queue, c: seq<byte>, lo: nat, hi: nat)
    requires q.Valid() && r.Valid() && lo <= hi <= |c|
  {
    Content(r.ring) == Content(q.ring) + c[lo..hi]
  }

  /** Two extensions by adjacent ranges make one extension by their union. */
  lemma ExtendsChain(q: Queue, p: Queue, r: Queue, c: seq<byte>, lo: nat, mid: nat, hi: nat)
    requires q.Valid() && p.Valid() && r.Valid() && lo <= mid <= hi <= |c|
    requires Extends(q, p, c, lo, mid) && Extends(p, r, c, mid, hi)
    ensures Extends(q, r, c, lo, hi)
  {
    AppendRanges(c, lo, mid, hi, Content(q.ring), Content(p.ring), Content(r.ring));
  }

  /** The queue after one round of a copy loop, and how many bytes the round took. */
  datatype Round = Round(queue: Queue, count: nat)

  /** One round of the loop of `writeBytes`: as much of `c[off..limit]` as the tail has room for. */
  function CopyRound(q: Queue, c: seq<byte>, off: nat, limit: nat): (p: Round)
    requires q.Valid() && off < limit <= |c|
    ensures p.queue.Valid() && 1 <= p.count <= limit - off
    ensures Extends(q, p.queue, c, off, off + p.count)
  {
    var q1 := GetBuffer(q, 1).value;
    var m := Min(limit - off, BUFFER_SIZE - Last(q1.ring).limit);
    Round(FillTail(q1, c[off..off + m]), m)
  }

  /**
   * `writeBytes(content, off, len)` with the copy placed at the tail's
   * write cursor: appends `content[off..off + len]` and commits.  A range
   * outside the array fails when it is first copied from; an empty range
   * copies nothing, wherever it lies.  A negative `len` copies nothing
   * either but still lowers the count (see `NegativeLength`).
   */
  function WriteBytes(w: Writer, c: seq<byte>, off: int, len: int): (res: Result<Writer, IoError>)
    requires w.Valid()
    ensures len >= 0 ==> (res.Ok? <==> len == 0 || (0 <= off && off + len <= |c|))
    ensures len >= 0 && res.Err? ==> res.error == IndexOutOfBounds
    ensures len >= 0 && res.Ok? ==> res.value.Valid() && IsPrefix(w.out, res.value.out) && res.value.size < BUFFER_SIZE
    ensures res.Ok? && len == 0 ==> res.value.Valid() && Emitted(res.value) == Emitted(w)
    ensures res.Ok? && len > 0 ==> res.value.Valid() && Emitted(res.value) == Emitted(w) + c[off..off + len]
    ensures len < 0 && off + len < -0x8000_0000 ==> res == Err(IndexOutOfBounds)
    ensures len < 0 && -0x8000_0000 <= off + len ==> (res.Ok? <==> w.queue.ring != [])
    ensures len < 0 && res.Ok? ==> Undercounted(w, res.value, len)
  {
    if len < 0 then
      NegativeLength(w, off, len)
    else if len == 0 then
      Ok(Commit(w))
    else if off < 0 || off + len > |c| then
      Err(IndexOutOfBounds)
    else
      Ok(Commit(CopyIn(w, c, off, off + len)))
  }

  /**
   * What a negative `len` leaves behind: nothing is added or lost, but the
   * count is `-len` short of the bytes the ring holds.
   */
  predicate Undercounted(w: Writer, res: Writer, len: int)
    requires w.Valid()
  {
    res.queue.Valid() && res.size == Buffered(res.queue.ring) + len
    && IsPrefix(w.out, res.out) && res.out + Content(res.queue.ring) == Emitted(w)
  }

  /**
   * `writeBytes` with a negative `len`.  The Java sum `off + len` is an
   * `int`: below `Integer.MIN_VALUE` it wraps to a `limit` above `off`, the
   * loop runs, and the first copy fails on the negative `off`.  Otherwise
   * the loop does not run, `size += len` puts the count below what is
   * buffered, and `commit()` works from that count; with no segment at all
   * the commit dereferences a null head.
   */
  function NegativeLength(w: Writer, off: int, len: int): (res: Result<Writer, IoError>)
    requires w.Valid() && len < 0
    ensures off + len < -0x8000_0000 ==> res == Err(IndexOutOfBounds)
    ensures -0x8000_0000 <= off + len ==> (res.Ok? <==> w.queue.ring != [])
    ensures -0x8000_0000 <= off + len && res.Err? ==> res.error == NullPointer
    ensures res.Ok? ==> Undercounted(w, res.value, len)
    ensures res.Ok? && w.size > 0 ==> |res.value.out| < |Emitted(w)|
  {
    BufferedIsLength(w.queue.ring);
    var s := w.size + len;
    if off + len < -0x8000_0000 then
      Err(IndexOutOfBounds)
    else if s == 0 then
      Ok(w.(size := 0))
    else if w.queue.ring == [] then
      Err(NullPointer)
    else
      var tail := Last(w.queue.ring);
      var keep := if tail.limit < BUFFER_SIZE then tail.Count() else 0;
      var r := RealWrite(w, s - keep);
      SamePrefix(r.out, Content(r.queue.ring), w.out, Content(w.queue.ring));
      Ok(r.(size := r.size + len))
  }

  /**
   * `flush()` on a writer whose count may be short of what it holds: it
   * hands `size` bytes to the output, or none when `size` is not positive.
   * On a writer whose count is right this is `Flush`.
   */
  function FlushCount(w: Writer): (res: Writer)
    requires w.queue.Valid() && w.size <= Buffered(w.queue.ring)
    ensures res.queue.Valid() && res.out + Content(res.queue.ring) == w.out + Content(w.queue.ring)
    ensures |res.out| == |w.out| + (if w.size > 0 then w.size else 0)
  {
    if w.size <= 0 then
      w
    else
      var v := w.(size := Buffered(w.queue.ring));
      RealWrite(v, w.size).(size := 0)
  }

  /**
   * On a writer that holds bytes, `writeBytes` with a negative `len`
   * strands bytes: a later `flush()` hands over only what the shortened
   * count covers, so the output never receives everything written.
   */
  lemma NegativeLengthStrandsBytes(w: Writer, c: seq<byte>, off: int, len: int)
    requires w.Valid() && w.size > 0 && len < 0 && -0x8000_0000 <= off + len
    ensures WriteBytes(w, c, off, len).Ok? && WriteBytesAsWritten(w, c, off, len).Ok?
    ensures var f := FlushCount(WriteBytes(w, c, off, len).value);
      IsPrefix(f.out, Emitted(w)) && |f.out| < |Emitted(w)|
  {
    var r := WriteBytes(w, c, off, len).value;
    BufferedIsLength(w.queue.ring);
    BufferedIsLength(r.queue.ring);
    var f := FlushCount(r);
    SamePrefix(Emitted(w), [], f.out, Content(f.queue.ring));
  }

  /** The copy loop of `writeBytes` followed by `size += len`. */
  function CopyIn(w: Writer, c: seq<byte>, lo: nat, hi: nat): (res: Writer)
    requires w.Valid() && lo <= hi <= |c|
    ensures res.Valid() && res.out == w.out
    ensures Emitted(res) == Emitted(w) + c[lo..hi]
  {
    var q := CopyChunks(w.queue, c, lo, hi);
    CopyChunksAppends(w.queue, c, lo, hi);
    BufferedIsLength(w.queue.ring);
    BufferedIsLength(q.ring);
    AppendAssoc(w.out, Content(w.queue.ring), c[lo..hi]);
    Writer(q, w.size + (hi - lo), w.out)
  }

  /**
   * `writeString(content, charsetName)` after encoding, over the corrected
   * `WriteBytes`: appends the whole array.  The method as written is
   * `WriteStringAsWritten`.
   */
  function WriteString(w: Writer, bytes: seq<byte>): (res: Writer)
    requires w.Valid()
    ensures res.Valid() && Emitted(res) == Emitted(w) + bytes
    ensures IsPrefix(w.out, res.out) && res.size < BUFFER_SIZE
  {
    assert bytes[0..|bytes|] == bytes;
    WriteBytes(w, bytes, 0, |bytes|).value
  }

  // -----------------------------------------------------------------------
  // `writeBytes` as written: the copy goes to `buffer.pos`, the tail's read
  // cursor, while `buffer.limit` advances as if it had gone to the write
  // cursor.  The two cursors coincide in a fresh or drained segment, so
  // the method is right when the tail is absent, full or empty; otherwise
  // it overwrites buffered bytes and exposes stale ones.
  // -----------------------------------------------------------------------

  /** The tail takes new bytes at its read cursor as well as at its write cursor. */
  predicate CursorsMeet(q: Queue) {
    q.ring == [] || Last(q.ring).pos == Last(q.ring).limit || Last(q.ring).limit == BUFFER_SIZE
  }

  /** The tail after `chunk` is copied to its read cursor and its write cursor moved past it. */
  function CopyAtReadCursor(q: Queue, chunk: seq<byte>): (r: Queue)
    requires q.Valid() && q.ring != [] && 1 <= |chunk| && Last(q.ring).limit + |chunk| <= BUFFER_SIZE
    ensures r.Valid()
    ensures |Content(r.ring)| == |Content(q.ring)| + |chunk|
    ensures Last(r.ring).limit == Last(q.ring).limit + |chunk|
    ensures Last(q.ring).pos == Last(q.ring).limit ==> Content(r.ring) == Content(q.ring) + chunk
  {
    var t := Last(q.ring);
    var t' := CopyInto(t, t.pos, chunk).(limit := t.limit + |chunk|);
    var front := q.ring[..|q.ring| - 1];
    assert q.ring == front + [t];
    ContentAppend(front, t);
    ContentAppend(front, t');
    assert t.pos == t.limit ==> t' == Append(t, chunk);
    AppendAssoc(Content(front), t.Readable(), chunk);
    assert (front + [t'])[..|front|] == front;
    Queue(front + [t'], q.pool)
  }

  /** One round of the loop of `writeBytes` as written. */
  function CopyRoundAsWritten(q: Queue, c: seq<byte>, off: nat, limit: nat): (p: Round)
    requires q.Valid() && off < limit <= |c|
    ensures p.queue.Valid() && 1 <= p.count <= limit - off
    ensures |Content(p.queue.ring)| == |Content(q.ring)| + p.count
    ensures p.count < limit - off ==> CursorsMeet(p.queue)
    ensures CursorsMeet(q) ==> Extends(q, p.queue, c, off, off + p.count)
  {
    var q1 := GetBuffer(q, 1).value;
    var m := Min(limit - off, BUFFER_SIZE - Last(q1.ring).limit);
    if CursorsMeet(q) then
      MeetingCursorsAppend(q, q1, c, off, m);
      Round(CopyAtReadCursor(q1, c[off..off + m]), m)
    else
      Round(CopyAtReadCursor(q1, c[off..off + m]), m)
  }

  /** When the cursors meet, the tail `getBuffer(1)` hands back takes a chunk at its write cursor. */
  lemma MeetingCursorsAppend(q: Queue, q1: Queue, c: seq<byte>, off: nat, m: nat)
    requires q.Valid() && CursorsMeet(q) && GetBuffer(q, 1) == Ok(q1)
    requires 1 <= m && off + m <= |c| && Last(q1.ring).limit + m <= BUFFER_SIZE
    ensures Extends(q, CopyAtReadCursor(q1, c[off..off + m]), c, off, off + m)
  {
    assert |q1.ring| == |q.ring| ==> q1.ring == q.ring;
  }

  /**
   * The loop of `writeBytes` as written.  It always adds as many bytes as
   * it copies; when the tail's cursors meet to begin with, every round
   * lands at the end of the content, so it appends `c[off..limit]`.
   */
  function CopyChunksAsWritten(q: Queue, c: seq<byte>, off: nat, limit: nat): (r: Queue)
    requires q.Valid() && off <= limit <= |c|
    ensures r.Valid()
    ensures |Content(r.ring)| == |Content(q.ring)| + (limit - off)
    ensures CursorsMeet(q) || off == limit ==> Extends(q, r, c, off, limit)
    decreases limit - off
  {
    if off == limit then
      q
    else
      var p := CopyRoundAsWritten(q, c, off, limit);
      var r := CopyChunksAsWritten(p.queue, c, off + p.count, limit);
      if CursorsMeet(q) then
        ExtendsChain(q, p.queue, r, c, off, off + p.count, limit);
        r
      else
        r
  }

  /**
   * `writeBytes(content, off, len)` as written.  It keeps the byte count
   * right, but appends `content[off..off + len]` only when the tail's
   * cursors meet (see `WriteBytesAsWrittenOverwrites` for the other case).
   */
  function WriteBytesAsWritten(w: Writer, c: seq<byte>, off: int, len: int): (res: Result<Writer, IoError>)
    requires w.Valid()
    ensures len >= 0 ==> (res.Ok? <==> len == 0 || (0 <= off && off + len <= |c|))
    ensures len >= 0 && res.Err? ==> res.error == IndexOutOfBounds
    ensures len >= 0 && res.Ok? ==> res.value.Valid() && IsPrefix(w.out, res.value.out) && res.value.size < BUFFER_SIZE
    ensures len >= 0 && res.Ok? ==> |Emitted(res.value)| == |Emitted(w)| + len
    ensures res.Ok? && len == 0 ==> res.value.Valid() && Emitted(res.value) == Emitted(w)
    ensures res.Ok? && len > 0 && CursorsMeet(w.queue) ==> res.value.Valid() && Emitted(res.value) == Emitted(w) + c[off..off + len]
    ensures len < 0 && off + len < -0x8000_0000 ==> res == Err(IndexOutOfBounds)
    ensures len < 0 && -0x8000_0000 <= off + len ==> (res.Ok? <==> w.queue.ring != [])
    ensures len < 0 && res.Ok? ==> Undercounted(w, res.value, len)
  {
    if len < 0 then
      NegativeLength(w, off, len)
    else if len == 0 then
      Ok(Commit(w))
    else if off < 0 || off + len > |c| then
      Err(IndexOutOfBounds)
    else
      Ok(Commit(CopyInAsWritten(w, c, off, off + len)))
  }

  /**
   * `writeString(content, charsetName)` as written, after encoding: it
   * passes the whole array to `writeBytes` as written, so it inherits the
   * copy at the read cursor and appends the array only when the tail's
   * cursors meet.
   */
  function WriteStringAsWritten(w: Writer, bytes: seq<byte>): (res: Writer)
    requires w.Valid()
    ensures res.Valid() && |Emitted(res)| == |Emitted(w)| + |bytes|
    ensures CursorsMeet(w.queue) ==> Emitted(res) == Emitted(w) + bytes
    ensures IsPrefix(w.out, res.out) && res.size < BUFFER_SIZE
  {
    assert bytes[0..|bytes|] == bytes;
    WriteBytesAsWritten(w, bytes, 0, |bytes|).value
  }

  /**
   * `writeByte(x)` then `writeString` of one different byte `y`, on a
   * writer holding nothing: as written the string's byte lands on `x`; the
   * corrected `WriteString` appends it.
   */
  lemma WriteStringAsWrittenOverwrites(w: Writer, x: byte, y: byte)
    requires w.Valid() && w.queue.ring == [] && x != y
    ensures Emitted(WriteStringAsWritten(WriteByte(w, x), [y])) != Emitted(w) + [x, y]
    ensures Emitted(WriteString(WriteByte(w, x), [y])) == Emitted(w) + [x, y]
  {
    WriteBytesAsWrittenOverwrites(w, x, y);
  }

  /** The copy loop of `writeBytes` as written, followed by `size += len`. */
  function CopyInAsWritten(w: Writer, c: seq<byte>, lo: nat, hi: nat): (res: Writer)
    requires w.Valid() && lo <= hi <= |c|
    ensures res.Valid() && res.out == w.out
    ensures |Emitted(res)| == |Emitted(w)| + (hi - lo)
    ensures CursorsMeet(w.queue) ==> Emitted(res) == Emitted(w) + c[lo..hi]
  {
    var q := CopyChunksAsWritten(w.queue, c, lo, hi);
    BufferedIsLength(w.queue.ring);
    BufferedIsLength(q.ring);
    if CursorsMeet(w.queue) then
      AppendAssoc(w.out, Content(w.queue.ring), c[lo..hi]);
      Writer(q, w.size + (hi - lo), w.out)
    else
      Writer(q, w.size + (hi - lo), w.out)
  }

  /**
   * When the tail is the only segment and still has unread bytes and room,
   * `writeBytes` as written of one byte puts it over the first unread byte.
   */
  lemma OverwritesUnreadByte(w: Writer, b: byte)
    requires w.Valid() && |w.queue.ring| == 1
    requires w.queue.ring[0].pos < w.queue.ring[0].limit < BUFFER_SIZE
    ensures |w.out| < |Emitted(WriteBytesAsWritten(w, [b], 0, 1).value)|
    ensures Emitted(WriteBytesAsWritten(w, [b], 0, 1).value)[|w.out|] == b
  {
    var t := w.queue.ring[0];
    var q1 := GetBuffer(w.queue, 1).value;
    assert q1 == w.queue;
    assert Min(1, BUFFER_SIZE - t.limit) == 1 && [b][0..0 + 1] == [b];
    var p := CopyRoundAsWritten(w.queue, [b], 0, 1);
    assert p.queue == CopyAtReadCursor(w.queue, [b]);
    var t' := p.queue.ring[0];
    assert t'.pos == t.pos && t'.data[t.pos] == b;
    assert Content(p.queue.ring)[0] == b;
    assert CopyChunksAsWritten(w.queue, [b], 0, 1) == p.queue;
  }

  /**
   * The input that shows `writeBytes` as written going wrong: on a writer
   * holding nothing (a fresh one, say), `writeByte(x)` leaves one byte
   * between cursors 0 and 1 of the tail; `writeBytes` of a different byte
   * `[y]` then copies over that byte, at the read cursor, so the stream no
   * longer reads `x` there.  The corrected `WriteBytes` appends it.
   */
  lemma WriteBytesAsWrittenOverwrites(w: Writer, x: byte, y: byte)
    requires w.Valid() && w.queue.ring == [] && x != y
    ensures Emitted(WriteBytesAsWritten(WriteByte(w, x), [y], 0, 1).value) != Emitted(w) + [x, y]
    ensures Emitted(WriteBytes(WriteByte(w, x), [y], 0, 1).value) == Emitted(w) + [x, y]
  {
    var w1 := WriteByte(w, x);
    FirstByteUnread(w, x);
    OverwritesUnreadByte(w1, y);
    AppendPair(Emitted(w), x, y);
    AppendsAfterByte(w, x, y);
  }

  /** On a writer holding nothing, `writeByte(x)` then the corrected `writeBytes([y])` emits `x, y`. */
  lemma AppendsAfterByte(w: Writer, x: byte, y: byte)
    requires w.Valid() && w.queue.ring == []
    ensures Emitted(WriteBytes(WriteByte(w, x), [y], 0, 1).value) == Emitted(w) + [x, y]
  {
    FirstByteUnread(w, x);
    assert [y][0..0 + 1] == [y];
    AppendPair(Emitted(w), x, y);
  }

  /** One byte written to an empty writer stays buffered, unread, in a single segment. */
  lemma FirstByteUnread(w: Writer, x: byte)
    requires w.Valid() && w.queue.ring == []
    ensures var w1 := WriteByte(w, x);
      w1.Valid() && |w1.queue.ring| == 1 && w1.queue.ring[0].pos == 0 && w1.queue.ring[0].limit == 1
      && w1.out == w.out && Emitted(w1) == Emitted(w) + [x]
  {
    var s := Store(w, [x]);
    assert s.size == 1 && |s.queue.ring| == 1;
    assert s.queue.ring[0].pos == 0 && s.queue.ring[0].limit == 1;
    assert RealWrite(s, 0) == s;
  }
}
