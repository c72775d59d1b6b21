/**
 * `IOBufferPool`: a bounded free list of segments.  Each stream wrapper owns
 * a private pool, so the model is sequential; the free list is the sequence
 * of its segments, first element first (`head`).
 */
module IOBufferPool {
  import opened Wrappers
  import opened IOBuffer

  /** Most bytes the free list may hold: 64 KiB, that is 32 segments. */
  const MAX_SIZE: nat := 64 * 1024

  datatype Pool = Pool(free: seq<Segment>, byteCount: int) {

    /**
     * `byteCount` is BUFFER_SIZE per listed segment and stays within
     * MAX_SIZE; every listed segment is valid and has both cursors at 0.
     */
    predicate Valid() {
      && byteCount == BUFFER_SIZE * |free|
      && byteCount <= MAX_SIZE
      && forall i | 0 <= i < |free| :: free[i].Valid() && free[i].pos == 0 && free[i].limit == 0
    }
  }

  /** The pool a wrapper starts with. */
  const EmptyPool: Pool := Pool([], 0)

  /** A segment handed out by `take`, with the pool after handing it out. */
  datatype Taken = Taken(segment: Segment, pool: Pool)

  /**
   * `take`: the first free segment when there is one (the list advances and
   * `byteCount` drops by one segment), otherwise a brand-new segment.
   * Either way the segment handed out is empty, with both cursors at 0.
   */
  function Take(p: Pool): (t: Taken)
    requires p.Valid()
    ensures t.pool.Valid()
    ensures t.segment.Valid() && t.segment.pos == 0 && t.segment.limit == 0
    ensures p.free == [] ==> t.segment == NewSegment() && t.pool == p
    ensures p.free != [] ==> t.segment == p.free[0] && t.pool.free == p.free[1..]
    ensures p.free != [] ==> t.pool.byteCount == p.byteCount - BUFFER_SIZE
  {
    if p.free != [] then
      Taken(p.free[0], Pool(p.free[1..], p.byteCount - BUFFER_SIZE))
    else
      Taken(NewSegment(), p)
  }

  /**
   * The body of `recycle` once the link check has passed: a full pool drops
   * the segment and stays as it is; otherwise the segment, cursors reset to
   * 0, goes to the front of the list and `byteCount` grows by one segment.
   */
  function RecycleDetached(p: Pool, s: Segment): (q: Pool)
    requires p.Valid() && s.Valid()
    ensures q.Valid()
    ensures p.byteCount + BUFFER_SIZE > MAX_SIZE ==> q == p
    ensures p.byteCount + BUFFER_SIZE <= MAX_SIZE ==>
      q.free == [s.(pos := 0, limit := 0)] + p.free && q.byteCount == p.byteCount + BUFFER_SIZE
  {
    if p.byteCount + BUFFER_SIZE > MAX_SIZE then p
    else Pool([s.(pos := 0, limit := 0)] + p.free, p.byteCount + BUFFER_SIZE)
  }

  /**
   * `recycle(buffer)`: refused with IllegalArgumentException while the
   * segment still has a `next` or `previous` link, before anything changes.
   */
  function Recycle(p: Pool, s: Segment, links: Links): (r: Result<Pool, IoError>)
    requires p.Valid() && s.Valid()
    ensures r.Err? <==> links.next.Some? || links.previous.Some?
    ensures r.Err? ==> r.error == IllegalArgument
    ensures r.Ok? ==> r.value == RecycleDetached(p, s)
  {
    if links.next.Some? || links.previous.Some? then Err(IllegalArgument)
    else Ok(RecycleDetached(p, s))
  }

  /** One call on a pool. */
  datatype PoolCall = TakeCall | RecycleCall(segment: Segment, links: Links)

  /** A sequence of calls run in order; a refused `recycle` leaves the pool as it was. */
  function Run(p: Pool, calls: seq<PoolCall>): Pool
    requires p.Valid()
    requires forall i | 0 <= i < |calls| :: calls[i].RecycleCall? ==> calls[i].segment.Valid()
    decreases |calls|
  {
    if calls == [] then p
    else
      var q := match calls[0]
        case TakeCall => Take(p).pool
        case RecycleCall(s, l) => Recycle(p, s, l).GetOr(p);
      Run(q, calls[1..])
  }

  /**
   * After any sequence of `take` and `recycle` calls the byte count is still
   * one segment per listed segment and never exceeds MAX_SIZE, so the list
   * holds at most 32 segments, each with both cursors at 0.
   */
  lemma {:induction false} RunKeepsBound(p: Pool, calls: seq<PoolCall>)
    requires p.Valid()
    requires forall i | 0 <= i < |calls| :: calls[i].RecycleCall? ==> calls[i].segment.Valid()
    decreases |calls|
    ensures Run(p, calls).Valid()
    ensures Run(p, calls).byteCount <= MAX_SIZE && |Run(p, calls).free| <= 32
  {
    if calls != [] {
      var q := match calls[0]
        case TakeCall => Take(p).pool
        case RecycleCall(s, l) => Recycle(p, s, l).GetOr(p);
      RunKeepsBound(q, calls[1..]);
    }
  }
}
