/**
 * The ring of segments a stream wrapper owns, together with its private
 * pool.  The ring is kept head first: `ring[0]` is `head` and the last
 * element is `head.previous`, the tail (see `IOBuffer.PushAfterTailAppends`
 * and `IOBuffer.PopHeadDropsFirst` for why a sequence is faithful).  Both
 * wrappers share `getBuffer` and `recycleBufferIfNecessary` verbatim, so
 * they are defined once here.
 */
module BufferQueue {
  import opened Bytes
  import opened Wrappers
  import opened IOBuffer
  import opened IOBufferPool

  /** Every segment of the ring is valid. */
  predicate WellFormed(ring: seq<Segment>) {
    forall i | 0 <= i < |ring| :: ring[i].Valid()
  }

  /** The logical byte content: the readable bytes of each segment, head first. */
  function Content(ring: seq<Segment>): seq<byte>
    requires WellFormed(ring)
  {
    if ring == [] then [] else ring[0].Readable() + Content(ring[1..])
  }

  /** The sum of `limit - pos` over the ring: what the wrappers keep in `size`. */
  function Buffered(ring: seq<Segment>): nat
    requires WellFormed(ring)
  {
    if ring == [] then 0 else ring[0].Count() + Buffered(ring[1..])
  }

  /** `size`, the sum of the segment counts, is the length of the logical content. */
  lemma {:induction false} BufferedIsLength(ring: seq<Segment>)
    requires WellFormed(ring)
    ensures |Content(ring)| == Buffered(ring)
  {
    if ring != [] {
      BufferedIsLength(ring[1..]);
    }
  }

  /** Content of a ring with one more segment at the tail. */
  lemma {:induction false} ContentAppend(ring: seq<Segment>, s: Segment)
    requires WellFormed(ring) && s.Valid()
    ensures WellFormed(ring + [s])
    ensures Content(ring + [s]) == Content(ring) + s.Readable()
  {
    if ring != [] {
      assert (ring + [s])[1..] == ring[1..] + [s];
      ContentAppend(ring[1..], s);
    }
  }

  /**
   * The shape both wrappers keep between operations: every segment valid;
   * a drained segment never stays in the ring except as the tail; and a
   * segment with no bytes is one fresh from the pool (both cursors 0).
   * A drained head is recycled at once, so only a tail that the input left
   * unfilled can be empty.
   */
  predicate Settled(ring: seq<Segment>) {
    && WellFormed(ring)
    && (forall i | 0 <= i < |ring| - 1 :: ring[i].pos < ring[i].limit)
    && (forall i | 0 <= i < |ring| :: ring[i].pos == ring[i].limit ==> ring[i].limit == 0)
  }

  /** The last element of a non-empty ring: the tail, `head.previous`. */
  function Last(ring: seq<Segment>): Segment
    requires ring != []
  {
    ring[|ring| - 1]
  }

  /** A wrapper's ring and its private pool. */
  datatype Queue = Queue(ring: seq<Segment>, pool: Pool) {
    predicate Valid() {
      Settled(ring) && pool.Valid()
    }
  }

  /** A settled ring holding some bytes has a non-empty head. */
  lemma HeadNotEmpty(ring: seq<Segment>)
    requires Settled(ring) && Buffered(ring) > 0
    ensures ring[0].pos < ring[0].limit
  {
    if |ring| == 1 {
      assert ring[1..] == [];
    }
  }

  /**
   * `getBuffer(minimumCapacity)`: refuses a capacity outside 1..BUFFER_SIZE;
   * otherwise returns (as the new tail) a segment with room for the
   * requested bytes: a segment taken from the pool when the ring is empty
   * or the tail lacks room, the old tail otherwise.  A value of up to
   * BUFFER_SIZE bytes therefore never straddles two segments.  The logical
   * content is unchanged.
   */
  function GetBuffer(q: Queue, k: int): (r: Result<Queue, IoError>)
    requires q.Valid()
    ensures r.Ok? <==> 1 <= k <= BUFFER_SIZE
    ensures r.Err? ==> r.error == IllegalArgument
    ensures r.Ok? ==> r.value.Valid() && r.value.ring != []
    ensures r.Ok? ==> Last(r.value.ring).limit + k <= BUFFER_SIZE
    ensures r.Ok? ==> Content(r.value.ring) == Content(q.ring)
    ensures r.Ok? ==> (|r.value.ring| == |q.ring| + 1 <==> q.ring == [] || Last(q.ring).limit + k > BUFFER_SIZE)
    ensures r.Ok? ==> (|r.value.ring| == |q.ring| || |r.value.ring| == |q.ring| + 1)
    ensures r.Ok? ==> r.value.ring[..|q.ring|] == q.ring
    ensures r.Ok? && |r.value.ring| > |q.ring| ==> Last(r.value.ring).pos == 0 && Last(r.value.ring).limit == 0
  {
    if k < 1 || k > BUFFER_SIZE then
      Err(IllegalArgument)
    else if q.ring == [] || Last(q.ring).limit + k > BUFFER_SIZE then
      Ok(AddSegment(q))
    else
      Ok(q)
  }

  /**
   * A segment taken from the pool and pushed after the tail.  The old tail
   * must hold bytes, as a full tail does, so the ring stays settled.
   */
  function AddSegment(q: Queue): (r: Queue)
    requires q.Valid() && (q.ring != [] ==> Last(q.ring).pos < Last(q.ring).limit)
    ensures r.Valid() && |r.ring| == |q.ring| + 1 && r.ring[..|q.ring|] == q.ring
    ensures Last(r.ring).pos == 0 && Last(r.ring).limit == 0
    ensures Content(r.ring) == Content(q.ring)
  {
    var t := Take(q.pool);
    SettledAppendEmpty(q.ring, t.segment);
    ContentAppend(q.ring, t.segment);
    assert (q.ring + [t.segment])[..|q.ring|] == q.ring;
    Queue(q.ring + [t.segment], t.pool)
  }

  /** An empty segment after a tail that holds bytes keeps the ring settled. */
  lemma SettledAppendEmpty(ring: seq<Segment>, s: Segment)
    requires Settled(ring) && (ring != [] ==> Last(ring).pos < Last(ring).limit)
    requires s.Valid() && s.pos == 0 && s.limit == 0
    ensures Settled(ring + [s])
  {
    var r := ring + [s];
    forall i | 0 <= i < |r| - 1
      ensures r[i].pos < r[i].limit
    {
      assert r[i] == ring[i];
    }
  }

  /** Replacing the tail by one with the same read cursor and at least as many bytes keeps the ring settled. */
  lemma SettledReplaceLast(ring: seq<Segment>, t: Segment)
    requires Settled(ring) && ring != []
    requires t.Valid() && t.pos == Last(ring).pos && Last(ring).limit <= t.limit
    ensures Settled(ring[..|ring| - 1] + [t])
  {
    var r := ring[..|ring| - 1] + [t];
    forall i | 0 <= i < |r| - 1
      ensures r[i] == ring[i]
    {
    }
  }

  /**
   * `recycleBufferIfNecessary(head)`: a drained head is popped from the
   * ring and handed back to the pool; anything else is left alone.  Only
   * the head may break the settled shape beforehand (it may just have been
   * drained); afterwards the ring is settled and its content unchanged.
   */
  function RecycleHead(q: Queue): (r: Queue)
    requires WellFormed(q.ring) && q.pool.Valid()
    requires q.ring != [] ==> Settled(q.ring[1..])
    ensures r.Valid()
    ensures Content(r.ring) == Content(q.ring)
    ensures q.ring != [] && q.ring[0].pos == q.ring[0].limit ==> r.ring == q.ring[1..]
    ensures !(q.ring != [] && q.ring[0].pos == q.ring[0].limit) ==> r.ring == q.ring
  {
    if q.ring != [] && q.ring[0].pos == q.ring[0].limit then
      Queue(q.ring[1..], RecycleDetached(q.pool, q.ring[0]))
    else
      assert q.ring != [] ==> q.ring == [q.ring[0]] + q.ring[1..];
      q
  }

  /**
   * Consuming `n` bytes from the head: `head.pos += n` followed by
   * `recycleBufferIfNecessary(head)`.  The logical content loses exactly its
   * first `n` bytes.
   */
  function Advance(q: Queue, n: nat): (r: Queue)
    requires q.Valid() && q.ring != [] && n <= q.ring[0].Count()
    ensures r.Valid()
    ensures Content(r.ring) == Content(q.ring)[n..]
    ensures Drained(q.ring, r.ring)
  {
    var head := q.ring[0];
    var moved := head.(pos := head.pos + n);
    assert moved.Readable() == head.Readable()[n..];
    assert ([moved] + q.ring[1..])[1..] == q.ring[1..];
    DropFront(head.Readable(), Content(q.ring[1..]), n);
    DrainedHead(q.ring, moved);
    RecycleHead(Queue([moved] + q.ring[1..], q.pool))
  }

  /**
   * Appending bytes at the tail's write cursor (`limit += count` after the
   * copy): the logical content grows by exactly those bytes.
   */
  function FillTail(q: Queue, bytes: seq<byte>): (r: Queue)
    requires q.Valid() && q.ring != []
    requires Last(q.ring).limit + |bytes| <= BUFFER_SIZE
    ensures r.Valid() && r.pool == q.pool && |r.ring| == |q.ring|
    ensures Content(r.ring) == Content(q.ring) + bytes
    ensures r.ring[..|r.ring| - 1] == q.ring[..|q.ring| - 1]
  {
    var front := q.ring[..|q.ring| - 1];
    var tail := Append(Last(q.ring), bytes);
    SettledReplaceLast(q.ring, tail);
    ContentReplaceLast(q.ring, tail);
    AppendAssoc(Content(front), Last(q.ring).Readable(), bytes);
    assert (front + [tail])[..|q.ring| - 1] == front;
    Queue(front + [tail], q.pool)
  }

  /** The content of a ring whose tail is replaced: the old tail's bytes give way to the new tail's. */
  lemma ContentReplaceLast(ring: seq<Segment>, t: Segment)
    requires WellFormed(ring) && ring != [] && t.Valid()
    ensures WellFormed(ring[..|ring| - 1]) && WellFormed(ring[..|ring| - 1] + [t])
    ensures Content(ring) == Content(ring[..|ring| - 1]) + Last(ring).Readable()
    ensures Content(ring[..|ring| - 1] + [t]) == Content(ring[..|ring| - 1]) + t.Readable()
  {
    var front := ring[..|ring| - 1];
    assert ring == front + [Last(ring)];
    ContentAppend(front, Last(ring));
    ContentAppend(front, t);
  }

  /**
   * `after` is `before` with some segments dropped from the head and the
   * new head's read cursor possibly moved on: what consuming from the head
   * does to the ring.  Segments behind the head are untouched.
   */
  predicate Drained(before: seq<Segment>, after: seq<Segment>) {
    && |after| <= |before|
    && (forall i | 1 <= i < |after| :: after[i] == before[|before| - |after| + i])
    && (after != [] ==> after[0].limit == before[|before| - |after|].limit)
  }

  /** Moving the head's read cursor, or dropping the head, drains the ring. */
  lemma DrainedHead(ring: seq<Segment>, moved: Segment)
    requires ring != [] && moved.limit == ring[0].limit
    ensures Drained(ring, [moved] + ring[1..])
    ensures Drained(ring, ring[1..])
  {
  }

  /** Draining twice is draining. */
  lemma DrainedTrans(a: seq<Segment>, b: seq<Segment>, c: seq<Segment>)
    requires Drained(a, b) && Drained(b, c)
    ensures Drained(a, c)
  {
    forall i | 1 <= i < |c|
      ensures c[i] == a[|a| - |c| + i]
    {
      assert c[i] == b[|b| - |c| + i];
    }
    if c != [] && |b| - |c| > 0 {
      assert b[|b| - |c|] == a[|a| - |c|];
    }
  }

  /** With two segments or more, the head and the tail each add their count to the total. */
  lemma {:induction false} BufferedEnds(ring: seq<Segment>)
    requires WellFormed(ring) && |ring| >= 2
    ensures Buffered(ring) >= ring[0].Count() + Last(ring).Count()
  {
    if |ring| > 2 {
      BufferedEnds(ring[1..]);
      assert Last(ring[1..]) == Last(ring);
    } else {
      assert ring[1..][1..] == [];
    }
  }
}
