/**
 * `InputStreamWrapper`: typed big- and little-endian reads, strings, lines
 * and searches over an input stream, through a ring of segments that holds
 * what has been read from the stream but not yet consumed.
 *
 * Every operation is stated against `Stream(r)`: the buffered bytes
 * followed by what the underlying stream has still to deliver.  A read of
 * `n` bytes returns the first `n` bytes of that sequence and leaves the
 * rest; how the input chooses to split its deliveries never shows.
 */
module InputStreamWrapper {
  import opened Bytes
  import opened Wrappers
  import opened ConvertUtils
  import opened IOBuffer
  import opened IOBufferPool
  import opened BufferQueue
  import opened InputSource

  /** The wrapper's fields: `head` and the private `pool` (as a queue), `size`, `inputStream`. */
  datatype Reader = Reader(queue: Queue, size: int, input: Input) {
    /** The ring is settled and `size` counts the bytes it holds. */
    predicate Valid() {
      queue.Valid() && size == Buffered(queue.ring)
    }
  }

  /** A value read together with the wrapper state after the read. */
  datatype Read<T> = Read(value: T, rest: Reader)

  /** The bytes the wrapper will hand out, in order: buffered ones first. */
  function Stream(r: Reader): seq<byte>
    requires r.Valid()
  {
    Content(r.queue.ring) + r.input.rest
  }

  /** `size` is the number of buffered bytes. */
  lemma SizeIsLength(r: Reader)
    requires r.Valid()
    ensures r.size == |Content(r.queue.ring)|
  {
    BufferedIsLength(r.queue.ring);
  }

  /** `new InputStreamWrapper(inputStream)`: nothing buffered, a fresh pool. */
  function Open(input: Input): (r: Reader)
    ensures r.Valid() && r.size == 0
    ensures Stream(r) == input.rest
  {
    Reader(Queue([], EmptyPool), 0, input)
  }

  // -----------------------------------------------------------------------
  // Filling the ring from the input.
  // -----------------------------------------------------------------------

  /** The count `read(requireCount)` returns (-1 at end of input) and the state after. */
  datatype Filled = Filled(count: int, rest: Reader)

  /**
   * `read(requireCount)`: a negative request is refused; otherwise one read
   * of the input into the tail (a fresh tail when the old one is full),
   * asking for at most `requireCount` bytes and at most the tail's room.
   * The stream is unchanged: bytes only move from the input into the ring.
   * The input's end shows as -1 and only when something was asked for.
   */
  function Fill(r: Reader, requireCount: int): (res: Result<Filled, IoError>)
    requires r.Valid()
    ensures res.Ok? <==> requireCount >= 0
    ensures res.Err? ==> res.error == IllegalArgument
    ensures res.Ok? ==> res.value.rest.Valid() && Stream(res.value.rest) == Stream(r)
    ensures res.Ok? ==> (res.value.count == -1 <==> requireCount > 0 && r.input.rest == [])
    ensures res.Ok? && res.value.count == -1 ==> res.value.rest.input == r.input
    ensures res.Ok? && res.value.count != -1 ==>
      && 0 <= res.value.count <= requireCount
      && (requireCount > 0 ==> 1 <= res.value.count)
      && res.value.rest.size == r.size + res.value.count
      && |res.value.rest.input.rest| == |r.input.rest| - res.value.count
  {
    if requireCount < 0 then
      Err(IllegalArgument)
    else
      var q := GetBuffer(r.queue, 1).value;
      var max := Min(requireCount, BUFFER_SIZE - Last(q.ring).limit);
      BufferedIsLength(r.queue.ring);
      BufferedIsLength(q.ring);
      match Pull(r.input, max)
      case EndOfInput =>
        Ok(Filled(-1, Reader(q, r.size, r.input)))
      case Chunk(bytes, next) =>
        Ok(Filled(|bytes|, Deliver(r, q, bytes, next)))
  }

  /** A chunk the input delivered, copied in at the tail: it moves from the input to the ring. */
  function Deliver(r: Reader, q: Queue, bytes: seq<byte>, next: Input): (res: Reader)
    requires r.Valid() && q.Valid() && q.ring != [] && Content(q.ring) == Content(r.queue.ring)
    requires Last(q.ring).limit + |bytes| <= BUFFER_SIZE && bytes + next.rest == r.input.rest
    ensures res.Valid() && Stream(res) == Stream(r) && res.input == next
    ensures res.size == r.size + |bytes|
  {
    var q' := FillTail(q, bytes);
    BufferedIsLength(r.queue.ring);
    BufferedIsLength(q'.ring);
    assert Buffered(q'.ring) == r.size + |bytes|;
    AppendAssoc(Content(r.queue.ring), bytes, next.rest);
    assert Content(q'.ring) + next.rest == Stream(r);
    Reader(q', r.size + |bytes|, next)
  }

  /**
   * `require(requireCount)`: reads from the input until at least
   * `requireCount` bytes are buffered, failing with an end-of-stream error
   * exactly when the stream is too short.
   */
  function Require(r: Reader, k: int): (res: Result<Reader, IoError>)
    requires r.Valid()
    ensures res.Ok? <==> k <= |Stream(r)|
    ensures res.Err? ==> res.error == EndOfStream
    ensures res.Ok? ==> res.value.Valid() && Stream(res.value) == Stream(r) && k <= res.value.size
    decreases |r.input.rest|
  {
    SizeIsLength(r);
    if r.size >= k then
      Ok(r)
    else
      var f := Fill(r, BUFFER_SIZE).value;
      if f.count == -1 then Err(EndOfStream) else Require(f.rest, k)
  }

  /** `requireAll()`: reads the input to its end; afterwards everything is buffered. */
  function RequireAll(r: Reader): (res: Reader)
    requires r.Valid()
    ensures res.Valid() && Stream(res) == Stream(r)
    ensures res.input.rest == [] && res.size == |Stream(r)|
    decreases |r.input.rest|
  {
    var f := Fill(r, BUFFER_SIZE).value;
    if f.count == -1 then
      SizeIsLength(f.rest);
      f.rest
    else
      RequireAll(f.rest)
  }

  // -----------------------------------------------------------------------
  // Consuming buffered bytes.
  // -----------------------------------------------------------------------

  /** The first bytes of the stream are the head segment's readable bytes. */
  lemma HeadBytes(r: Reader, n: nat)
    requires r.Valid() && r.queue.ring != [] && n <= r.queue.ring[0].Count()
    ensures n <= |Content(r.queue.ring)| && n <= |Stream(r)|
    ensures Stream(r)[..n] == r.queue.ring[0].data[r.queue.ring[0].pos..r.queue.ring[0].pos + n]
  {
    var ring := r.queue.ring;
    var head := ring[0].Readable();
    assert Content(ring) == head + Content(ring[1..]);
    AppendAssoc(head, Content(ring[1..]), r.input.rest);
    PrefixOfFront(head, Content(ring[1..]) + r.input.rest, n);
    SliceFront(ring[0].data, ring[0].pos, ring[0].limit, n);
  }

  /**
   * `head.pos += n; size -= n; recycleBufferIfNecessary(head)`: the stream
   * loses its first `n` bytes.
   */
  function Consume(r: Reader, n: nat): (res: Reader)
    requires r.Valid() && r.queue.ring != [] && n <= r.queue.ring[0].Count()
    ensures res.Valid() && res.size == r.size - n && res.input == r.input
    ensures n <= |Stream(r)| && Stream(res) == Stream(r)[n..]
  {
    var q := Advance(r.queue, n);
    HeadBytes(r, n);
    BufferedIsLength(q.ring);
    DropFront(Content(r.queue.ring), r.input.rest, n);
    Reader(q, r.size - n, r.input)
  }

  /** The head segment of a wrapper holding at least `n > 0` bytes, and that it is non-empty. */
  lemma HeadHolds(r: Reader)
    requires r.Valid() && r.size > 0
    ensures r.queue.ring != [] && r.queue.ring[0].Count() > 0
  {
    HeadNotEmpty(r.queue.ring);
  }

  /** `readByte()`: the first byte of the stream. */
  function ReadByte(r: Reader): (res: Result<Read<byte>, IoError>)
    requires r.Valid()
    ensures res.Ok? <==> 1 <= |Stream(r)|
    ensures res.Err? ==> res.error == EndOfStream
    ensures res.Ok? ==> res.value.rest.Valid()
    ensures res.Ok? ==> res.value.value == Stream(r)[0] && Stream(res.value.rest) == Stream(r)[1..]
  {
    var r1 :- Require(r, 1);
    HeadHolds(r1);
    var head := r1.queue.ring[0];
    HeadBytes(r1, 1);
    Ok(Read(head.data[head.pos], Consume(r1, 1)))
  }

  /** Successive `readByte()` calls, as the typed reads fall back to when a value straddles two segments. */
  function ReadEach(r: Reader, n: nat): (res: Read<seq<byte>>)
    requires r.Valid() && n <= |Stream(r)|
    ensures res.rest.Valid()
    ensures res.value == Stream(r)[..n] && Stream(res.rest) == Stream(r)[n..]
    decreases n
  {
    if n == 0 then
      Read([], r)
    else
      var s := Stream(r);
      var b := ReadByte(r).value;
      var t := ReadEach(b.rest, n - 1);
      TakeFirst(s, n);
      TakeSplit(s, 1, n - 1);
      Read([b.value] + t.value, t.rest)
  }

  // -----------------------------------------------------------------------
  // Typed reads.  Each takes its value from the head segment when the
  // head holds all of it and falls back to smaller reads otherwise; either
  // way the value's big-endian bytes are the first bytes of the stream.
  // -----------------------------------------------------------------------

  /** `readShort()`: the two first bytes of the stream, big-endian. */
  function ReadShort(r: Reader): (res: Result<Read<bv16>, IoError>)
    requires r.Valid()
    ensures res.Ok? <==> 2 <= |Stream(r)|
    ensures res.Err? ==> res.error == EndOfStream
    ensures res.Ok? ==> res.value.rest.Valid()
    ensures res.Ok? ==> Short2Bytes(res.value.value) == Stream(r)[..2] && Stream(res.value.rest) == Stream(r)[2..]
  {
    var r1 :- Require(r, 2);
    HeadHolds(r1);
    var head := r1.queue.ring[0];
    if head.Count() < 2 then
      var t := ReadEach(r1, 2);
      Ok(Read(Bytes2Short(t.value), t.rest))
    else
      HeadBytes(r1, 2);
      Ok(Read(Bytes2Short(head.data[head.pos..head.pos + 2]), Consume(r1, 2)))
  }

  /** `readInt()`: the four first bytes of the stream, big-endian. */
  function ReadInt(r: Reader): (res: Result<Read<bv32>, IoError>)
    requires r.Valid()
    ensures res.Ok? <==> 4 <= |Stream(r)|
    ensures res.Err? ==> res.error == EndOfStream
    ensures res.Ok? ==> res.value.rest.Valid()
    ensures res.Ok? ==> Int2Bytes(res.value.value) == Stream(r)[..4] && Stream(res.value.rest) == Stream(r)[4..]
  {
    var r1 :- Require(r, 4);
    HeadHolds(r1);
    var head := r1.queue.ring[0];
    if head.Count() < 4 then
      var t := ReadEach(r1, 4);
      Ok(Read(Bytes2Int(t.value), t.rest))
    else
      HeadBytes(r1, 4);
      Ok(Read(Bytes2Int(head.data[head.pos..head.pos + 4]), Consume(r1, 4)))
  }

  /**
   * `readLong()`: the eight first bytes of the stream, big-endian.  A value
   * straddling two segments is joined from two `readInt()`s.
   */
  function ReadLong(r: Reader): (res: Result<Read<bv64>, IoError>)
    requires r.Valid()
    ensures res.Ok? <==> 8 <= |Stream(r)|
    ensures res.Err? ==> res.error == EndOfStream
    ensures res.Ok? ==> res.value.rest.Valid()
    ensures res.Ok? ==> Long2Bytes(res.value.value) == Stream(r)[..8] && Stream(res.value.rest) == Stream(r)[8..]
  {
    var r1 :- Require(r, 8);
    Ok(ReadBufferedLong(r1))
  }

  /** `readLong()` once eight bytes are buffered: from the head segment when it holds them all. */
  function ReadBufferedLong(r: Reader): (res: Read<bv64>)
    requires r.Valid() && 8 <= r.size
    ensures 8 <= |Stream(r)| && res.rest.Valid()
    ensures Long2Bytes(res.value) == Stream(r)[..8] && Stream(res.rest) == Stream(r)[8..]
  {
    SizeIsLength(r);
    HeadHolds(r);
    var head := r.queue.ring[0];
    if head.Count() < 8 then
      ReadTwoInts(r)
    else
      HeadBytes(r, 8);
      Read(Bytes2Long(head.data[head.pos..head.pos + 8]), Consume(r, 8))
  }

  /** The fallback of `readLong()`: two `readInt()`s, the first one the high half. */
  function ReadTwoInts(r: Reader): (res: Read<bv64>)
    requires r.Valid() && 8 <= |Stream(r)|
    ensures res.rest.Valid()
    ensures Long2Bytes(res.value) == Stream(r)[..8] && Stream(res.rest) == Stream(r)[8..]
  {
    var hi := ReadInt(r).value;
    var lo := ReadInt(hi.rest).value;
    TakeSplit(Stream(r), 4, 4);
    Read(JoinHalves(hi.value, lo.value), lo.rest)
  }

  /** `readShortLE()`: the two first bytes of the stream, little-endian. */
  function ReadShortLE(r: Reader): (res: Result<Read<bv16>, IoError>)
    requires r.Valid()
    ensures res.Ok? <==> 2 <= |Stream(r)|
    ensures res.Err? ==> res.error == EndOfStream
    ensures res.Ok? ==> res.value.rest.Valid()
    ensures res.Ok? ==> Short2BytesLE(res.value.value) == Stream(r)[..2] && Stream(res.value.rest) == Stream(r)[2..]
  {
    var x :- ReadShort(r);
    ReverseBytesShortInvolution(x.value);
    Ok(Read(ReverseBytesShort(x.value), x.rest))
  }

  /** `readIntLE()`: the four first bytes of the stream, little-endian. */
  function ReadIntLE(r: Reader): (res: Result<Read<bv32>, IoError>)
    requires r.Valid()
    ensures res.Ok? <==> 4 <= |Stream(r)|
    ensures res.Err? ==> res.error == EndOfStream
    ensures res.Ok? ==> res.value.rest.Valid()
    ensures res.Ok? ==> Int2BytesLE(res.value.value) == Stream(r)[..4] && Stream(res.value.rest) == Stream(r)[4..]
  {
    var x :- ReadInt(r);
    ReverseBytesIntInvolution(x.value);
    Ok(Read(ReverseBytesInt(x.value), x.rest))
  }

  /** `readLongLE()`: the eight first bytes of the stream, little-endian. */
  function ReadLongLE(r: Reader): (res: Result<Read<bv64>, IoError>)
    requires r.Valid()
    ensures res.Ok? <==> 8 <= |Stream(r)|
    ensures res.Err? ==> res.error == EndOfStream
    ensures res.Ok? ==> res.value.rest.Valid()
    ensures res.Ok? ==> Long2BytesLE(res.value.value) == Stream(r)[..8] && Stream(res.value.rest) == Stream(r)[8..]
  {
    var x :- ReadLong(r);
    ReverseBytesLongInvolution(x.value);
    Ok(Read(ReverseBytesLong(x.value), x.rest))
  }

  // -----------------------------------------------------------------------
  // Bulk reads.
  // -----------------------------------------------------------------------

  /**
   * The copy loop of `readBytes`: repeatedly takes what the head holds, up
   * to what is still wanted, and recycles drained heads.  Works on
   * buffered bytes only.
   */
  function TakeBytes(r: Reader, n: nat): (res: Read<seq<byte>>)
    requires r.Valid() && n <= r.size
    ensures res.rest.Valid() && res.rest.input == r.input && res.rest.size == r.size - n
    ensures n <= |Stream(r)|
    ensures res.value == Stream(r)[..n] && Stream(res.rest) == Stream(r)[n..]
    decreases n
  {
    if n == 0 then
      Read([], r)
    else
      var h := TakeFromHead(r, n);
      var m := |h.value|;
      var t := TakeBytes(h.rest, n - m);
      Chain(Stream(r), Stream(h.rest), Stream(t.rest), h.value, t.value, m, n);
      Read(h.value + t.value, t.rest)
  }

  /** One round of the copy loop of `readBytes`: what the head holds, up to `n` bytes. */
  function TakeFromHead(r: Reader, n: nat): (res: Read<seq<byte>>)
    requires r.Valid() && 0 < n <= r.size
    ensures res.rest.Valid() && res.rest.input == r.input
    ensures 1 <= |res.value| <= n && res.rest.size == r.size - |res.value|
    ensures |res.value| <= |Stream(r)|
    ensures res.value == Stream(r)[..|res.value|] && Stream(res.rest) == Stream(r)[|res.value|..]
  {
    HeadHolds(r);
    var head := r.queue.ring[0];
    var m := Min(n, head.Count());
    HeadBytes(r, m);
    Read(head.data[head.pos..head.pos + m], Consume(r, m))
  }

  /** The loop of `skip`: the same walk as `TakeBytes`, keeping nothing. */
  function Drop(r: Reader, n: int): (res: Reader)
    requires r.Valid() && n <= r.size
    ensures res.Valid() && res.input == r.input
    ensures n <= 0 ==> res == r
    ensures n > 0 ==> res.size == r.size - n && n <= |Stream(r)| && Stream(res) == Stream(r)[n..]
    decreases n
  {
    if n <= 0 then
      r
    else
      HeadHolds(r);
      var m := Min(n, r.queue.ring[0].Count());
      var r1 := Consume(r, m);
      var res := Drop(r1, n - m);
      SizeIsLength(r);
      DropChain(Stream(r), Stream(r1), Stream(res), m, n);
      res
  }

  /**
   * `readBytes(readCount)`: a count above `Integer.MAX_VALUE` or below 1 is
   * refused; otherwise the first `readCount` bytes of the stream, or an
   * end-of-stream error when the stream is shorter.
   */
  function ReadBytes(r: Reader, n: int): (res: Result<Read<seq<byte>>, IoError>)
    requires r.Valid()
    ensures res.Ok? <==> 1 <= n <= INT_MAX && n <= |Stream(r)|
    ensures (n < 1 || n > INT_MAX) ==> res == Err(IllegalArgument)
    ensures 1 <= n <= INT_MAX && res.Err? ==> res.error == EndOfStream
    ensures res.Ok? ==> res.value.rest.Valid()
    ensures res.Ok? ==> res.value.value == Stream(r)[..n] && Stream(res.value.rest) == Stream(r)[n..]
  {
    if n > INT_MAX then
      Err(IllegalArgument)
    else if n <= 0 then
      Err(IllegalArgument)
    else
      var r1 :- Require(r, n);
      Ok(TakeBytes(r1, n))
  }

  /**
   * `skip(skipCount)`: drops the first `skipCount` bytes of the stream, or
   * fails at its end; a count of zero or less changes nothing.
   */
  function Skip(r: Reader, n: int): (res: Result<Reader, IoError>)
    requires r.Valid()
    ensures res.Ok? <==> n <= |Stream(r)|
    ensures res.Err? ==> res.error == EndOfStream
    ensures res.Ok? ==> res.value.Valid()
    ensures res.Ok? && n > 0 ==> Stream(res.value) == Stream(r)[n..]
    ensures res.Ok? && n <= 0 ==> Stream(res.value) == Stream(r)
  {
    var r1 :- Require(r, n);
    Ok(Drop(r1, n))
  }

  /** Dropping bytes leaves the wrapper exactly where taking them does. */
  lemma {:induction false} DropIsTakeRest(r: Reader, n: nat)
    requires r.Valid() && n <= r.size
    ensures Drop(r, n) == TakeBytes(r, n).rest
    decreases n
  {
    if n > 0 {
      HeadHolds(r);
      var m := Min(n, r.queue.ring[0].Count());
      var h := TakeFromHead(r, n);
      assert h.rest == Consume(r, m) && |h.value| == m;
      assert Drop(r, n) == Drop(h.rest, n - m);
      assert TakeBytes(r, n).rest == TakeBytes(h.rest, n - m).rest;
      DropIsTakeRest(h.rest, n - m);
    }
  }

  /** `skip(n)` leaves the wrapper in the same state as `readBytes(n)`, for every count `readBytes` accepts. */
  lemma SkipIsReadDiscard(r: Reader, n: int)
    requires r.Valid() && 1 <= n <= INT_MAX
    ensures Skip(r, n).Ok? <==> ReadBytes(r, n).Ok?
    ensures Skip(r, n).Ok? ==> Skip(r, n).value == ReadBytes(r, n).value.rest
  {
    if n <= |Stream(r)| {
      DropIsTakeRest(Require(r, n).value, n);
    }
  }

  /**
   * `readString(readCount, charsetName)`, before decoding: the first
   * `readCount` bytes of the stream.  A count above `Integer.MAX_VALUE` is
   * refused; zero gives no bytes.  A negative count down to
   * `Integer.MIN_VALUE` passes `require` and then fails: on a null head
   * (`NullPointerException`) or in the `String` constructor
   * (`StringIndexOutOfBoundsException`).  Below that, the `(int)` cast of
   * the count wraps; the model still fails there and its contract makes no
   * claim about such counts.
   */
  function ReadString(r: Reader, n: int): (res: Result<Read<seq<byte>>, IoError>)
    requires r.Valid()
    ensures n > INT_MAX ==> res == Err(IllegalArgument)
    ensures 0 <= n <= INT_MAX ==> (res.Ok? <==> n <= |Stream(r)|)
    ensures 0 <= n <= INT_MAX && res.Err? ==> res.error == EndOfStream
    ensures -0x8000_0000 <= n < 0 ==> res.Err? && res.error in {NullPointer, IndexOutOfBounds}
    ensures res.Ok? ==> res.value.rest.Valid()
    ensures res.Ok? ==> 0 <= n <= |Stream(r)|
    ensures res.Ok? ==> res.value.value == Stream(r)[..n] && Stream(res.value.rest) == Stream(r)[n..]
  {
    if n > INT_MAX then
      Err(IllegalArgument)
    else
      var r1 :- Require(r, n);
      if n == 0 then
        Ok(Read([], r1))
      else if r1.queue.ring == [] then
        Err(NullPointer)
      else
        var head := r1.queue.ring[0];
        if head.Count() < n then
          ReadBytes(r1, n)
        else if n < 0 then
          Err(IndexOutOfBounds)
        else
          HeadBytes(r1, n);
          Ok(Read(head.data[head.pos..head.pos + n], Consume(r1, n)))
  }

  /**
   * `readAll(charsetName)`, before decoding: reads the input to its end
   * and returns everything, provided it fits in a Java string.
   */
  function ReadAll(r: Reader): (res: Result<Read<seq<byte>>, IoError>)
    requires r.Valid()
    ensures res.Ok? <==> |Stream(r)| <= INT_MAX
    ensures res.Err? ==> res.error == IllegalArgument
    ensures res.Ok? ==> res.value.value == Stream(r)
    ensures res.Ok? ==> res.value.rest.Valid() && Stream(res.value.rest) == []
  {
    var r1 := RequireAll(r);
    ReadString(r1, r1.size)
  }

  // -----------------------------------------------------------------------
  // Random access and search over the buffered bytes.
  // -----------------------------------------------------------------------

  /**
   * The walk `valueOf` makes from the head over one lap of the ring: the
   * byte `index` places into the buffered content, or None when the lap
   * ends first.
   */
  function Locate(ring: seq<Segment>, index: nat): (b: Option<byte>)
    requires WellFormed(ring)
    ensures index < |Content(ring)| ==> b == Some(Content(ring)[index])
    ensures index >= |Content(ring)| ==> b == None
    decreases |ring|
  {
    if ring == [] then
      None
    else if index < ring[0].Count() then
      Some(ring[0].data[ring[0].pos + index])
    else
      Locate(ring[1..], index - ring[0].Count())
  }

  /**
   * `valueOf(index)` as written.  The guard refuses only `index > size`, so
   * `index == size` walks a full lap and, the ring being circular, comes
   * back to the head with nothing left to skip: it returns the first
   * buffered byte instead of failing.  A negative index passes the guard
   * and is used in the head's array after the `(int)` cast: down to
   * `Integer.MIN_VALUE` it reads before the read cursor (a stale byte) or
   * fails below the array's start; further down the cast wraps and may
   * land anywhere in the array.  With nothing buffered and a null head
   * the walk dereferences `null`.  With nothing buffered and an empty head
   * (what `read` leaves behind at the end of the input), `index == 0`
   * never leaves the loop: the precondition excludes only that call.
   */
  function ValueOfAsWritten(r: Reader, index: int): (res: Result<byte, IoError>)
    requires r.Valid() && (r.size > 0 || index != 0 || r.queue.ring == [])
    ensures index > r.size ==> res == Err(IndexOutOfBounds)
    ensures 0 <= index < r.size ==> index < |Stream(r)| && res == Ok(Stream(r)[index])
    ensures index == r.size > 0 ==> 0 < |Stream(r)| && res == Ok(Stream(r)[0])
    ensures r.queue.ring == [] ==> r.size == 0 && (res == Err(NullPointer) <==> index <= 0)
    ensures index < 0 && r.queue.ring != [] ==> (res.Ok? <==> 0 <= r.queue.ring[0].pos + IntOf(index) < BUFFER_SIZE)
    ensures -0x8000_0000 <= index < 0 && r.queue.ring != [] ==> (res.Ok? <==> 0 <= r.queue.ring[0].pos + index)
    ensures index < 0 && res.Ok? ==>
      r.queue.ring != [] && res.value == r.queue.ring[0].data[r.queue.ring[0].pos + IntOf(index)]
    ensures res.Err? && res.error != NullPointer ==> res.error == IndexOutOfBounds
  {
    SizeIsLength(r);
    if index > r.size then
      Err(IndexOutOfBounds)
    else if r.queue.ring == [] then
      Err(NullPointer)
    else
      var head := r.queue.ring[0];
      if index < head.Count() then
        var at := head.pos + IntOf(index);
        if at < 0 || at >= BUFFER_SIZE then Err(IndexOutOfBounds) else Ok(head.data[at])
      else
        HeadHolds(r);
        match Locate(r.queue.ring, index)
        case Some(b) => Ok(b)
        case None =>
          // Round the ring once more, starting at the head with index - size to go.
          HeadBytes(r, 1);
          Ok(head.data[head.pos + (index - r.size)])
  }

  /** `valueOf(index)` with the guard the method evidently intends: `index` must be a buffered position. */
  function ValueOf(r: Reader, index: int): (res: Result<byte, IoError>)
    requires r.Valid()
    ensures res.Ok? <==> 0 <= index < r.size
    ensures res.Err? ==> res.error == IndexOutOfBounds
    ensures res.Ok? ==> index < |Stream(r)| && res.value == Stream(r)[index]
  {
    SizeIsLength(r);
    if index < 0 || index >= r.size then Err(IndexOutOfBounds) else Ok(Locate(r.queue.ring, index).value)
  }

  /** On every buffered position the method as written and the corrected one agree. */
  lemma ValueOfAgrees(r: Reader, index: int)
    requires r.Valid() && 0 <= index < r.size
    ensures ValueOfAsWritten(r, index) == ValueOf(r, index)
  {
  }

  /** At `index == size` the method as written returns the first byte; the corrected one refuses. */
  lemma ValueOfAtSizeWraps(r: Reader)
    requires r.Valid() && r.size > 0
    ensures 0 < |Stream(r)| && ValueOfAsWritten(r, r.size) == Ok(Stream(r)[0])
    ensures ValueOf(r, r.size) == Err(IndexOutOfBounds)
  {
    SizeIsLength(r);
  }

  /** The inner loop of `findInBuffer`: the first position from `p` up to the segment's limit holding `b`, or -1. */
  function Scan(s: Segment, b: byte, p: nat): (q: int)
    requires s.Valid() && p <= s.limit
    ensures q == -1 ==> forall j | p <= j < s.limit :: s.data[j] != b
    ensures q != -1 ==> p <= q < s.limit && s.data[q] == b
    ensures q != -1 ==> forall j | p <= j < q :: s.data[j] != b
    decreases s.limit - p
  {
    if p == s.limit then -1
    else if s.data[p] == b then p
    else Scan(s, b, p + 1)
  }

  /** The first position at or after `start` in `s` holding `b`. */
  predicate FirstAtOrAfter(s: seq<byte>, b: byte, start: nat, k: int) {
    && start <= k < |s| && s[k] == b
    && forall j | start <= j < k :: s[j] != b
  }

  /** No position at or after `start` in `s` holds `b`. */
  predicate NoneAtOrAfter(s: seq<byte>, b: byte, start: nat) {
    forall j | start <= j < |s| :: s[j] != b
  }

  /** `res` answers a search of `c` for `b` from `start`, reported `offset` positions further on: -1 for none. */
  predicate Searched(c: seq<byte>, b: byte, start: nat, offset: nat, res: int) {
    if res == -1 then NoneAtOrAfter(c, b, start) else offset <= res && FirstAtOrAfter(c, b, start, res - offset)
  }

  /**
   * The do-while loop of `findInBuffer` over the segments from one
   * onwards: skips `start` bytes, then scans; `offset` counts the bytes of
   * the segments already passed.  The result is an absolute position: the
   * first one at or after `start` holding `b`, or -1.
   */
  function FindFrom(ring: seq<Segment>, b: byte, start: nat, offset: nat): (res: int)
    requires WellFormed(ring)
    ensures Searched(Content(ring), b, start, offset, res)
    decreases |ring|
  {
    if ring == [] then
      -1
    else
      var s := ring[0];
      if start >= s.Count() then
        var res := FindFrom(ring[1..], b, start - s.Count(), offset + s.Count());
        ContentCons(ring);
        SearchedShift(Content(ring), s.Readable(), Content(ring[1..]), b, start, start - s.Count(), offset, res);
        res
      else
        var p := Scan(s, b, s.pos + start);
        ScanInHead(ring, b, start, p);
        if p != -1 then
          offset + p - s.pos
        else
          var res := FindFrom(ring[1..], b, 0, offset + s.Count());
          ContentCons(ring);
          SearchedShift(Content(ring), s.Readable(), Content(ring[1..]), b, start, 0, offset, res);
          res
  }

  /**
   * With no `b` in the front part `h` of `c` from `start` on, a search of
   * the rest `t` (from the start left over, `offset` moved past `h`)
   * answers the search of `c`.
   */
  lemma SearchedShift(c: seq<byte>, h: seq<byte>, t: seq<byte>, b: byte, start: nat, skip: nat, offset: nat, res: int)
    requires c == h + t
    requires start >= |h| || NoneAtOrAfter(h, b, start)
    requires skip == if start >= |h| then start - |h| else 0
    requires Searched(t, b, skip, offset + |h|, res)
    ensures Searched(c, b, start, offset, res)
  {
    var n := |h|;
    IndexConcat(c, h, t);
    if res == -1 {
      forall j | start <= j < |c| ensures c[j] != b {
        if j >= n {
          assert c[j] == t[j - n];
        } else {
          assert c[j] == h[j];
        }
      }
    } else {
      var k := res - offset - n;
      assert c[k + n] == t[k];
      forall j | start <= j < k + n ensures c[j] != b {
        if j >= n {
          assert c[j] == t[j - n];
        } else {
          assert c[j] == h[j];
        }
      }
    }
  }

  /** The first positions of the content are the head's readable bytes. */
  lemma ContentHead(ring: seq<Segment>)
    requires WellFormed(ring) && ring != []
    ensures forall j | 0 <= j < ring[0].Count() :: Content(ring)[j] == ring[0].data[ring[0].pos + j]
  {
    ContentCons(ring);
    IndexConcat(Content(ring), ring[0].Readable(), Content(ring[1..]));
    IndexSlice(ring[0].data, ring[0].pos, ring[0].limit);
  }

  /** The content after the head's readable bytes is the rest's content. */
  lemma ContentTail(ring: seq<Segment>)
    requires WellFormed(ring) && ring != []
    ensures |Content(ring)| == ring[0].Count() + |Content(ring[1..])|
    ensures forall j | ring[0].Count() <= j < |Content(ring)| :: Content(ring)[j] == Content(ring[1..])[j - ring[0].Count()]
  {
    ContentCons(ring);
    IndexConcat(Content(ring), ring[0].Readable(), Content(ring[1..]));
  }

  /** The content of a non-empty ring is the head's readable bytes, then the rest's content. */
  lemma ContentCons(ring: seq<Segment>)
    requires WellFormed(ring) && ring != []
    ensures Content(ring) == ring[0].Readable() + Content(ring[1..])
  {
  }

  /** A scan of the head from `start` finds the first `b` of the content at or after `start`, if the head holds one. */
  lemma ScanInHead(ring: seq<Segment>, b: byte, start: nat, p: int)
    requires WellFormed(ring) && ring != [] && start < ring[0].Count()
    requires p == Scan(ring[0], b, ring[0].pos + start)
    ensures p != -1 ==> ring[0].pos <= p && FirstAtOrAfter(Content(ring), b, start, p - ring[0].pos)
    ensures p == -1 ==> NoneAtOrAfter(ring[0].Readable(), b, start)
  {
    ContentHead(ring);
    ContentTail(ring);
    var s := ring[0];
    if p == -1 {
      IndexSlice(s.data, s.pos, s.limit);
      forall j | start <= j < s.Count() ensures s.Readable()[j] != b {
        assert s.data[s.pos + j] != b;
      }
    } else {
      forall j | start <= j < p - s.pos ensures Content(ring)[j] != b {
        assert s.data[s.pos + j] != b;
      }
    }
  }

  /** `findInBuffer` from a start at or beyond zero: the first buffered position at or after `start` holding `b`, or -1. */
  function FindBuffered(ring: seq<Segment>, b: byte, start: nat): (res: int)
    requires WellFormed(ring)
    ensures res == -1 || start <= res < |Content(ring)|
    ensures res == -1 ==> NoneAtOrAfter(Content(ring), b, start)
    ensures res != -1 ==> FirstAtOrAfter(Content(ring), b, start, res)
  {
    if ring == [] then -1 else FindFrom(ring, b, start, 0)
  }

  /**
   * The ring with the head's read cursor moved back by `back` bytes: what
   * `findInBuffer` scans for a negative start, the head's consumed bytes
   * still in its array coming first.
   */
  function Rewound(ring: seq<Segment>, back: nat): (res: seq<Segment>)
    requires WellFormed(ring) && ring != [] && back <= ring[0].pos
    ensures WellFormed(res) && res != [] && res[0].pos + back == ring[0].pos
    ensures Content(res) == ring[0].data[ring[0].pos - back..ring[0].pos] + Content(ring)
  {
    var s := ring[0];
    var res := [s.(pos := s.pos - back)] + ring[1..];
    assert res[1..] == ring[1..];
    assert Content(res) == res[0].Readable() + Content(ring[1..]);
    assert Content(ring) == s.Readable() + Content(ring[1..]);
    assert res[0].Readable() == s.data[s.pos - back..s.pos] + s.Readable();
    AppendAssoc(s.data[s.pos - back..s.pos], s.Readable(), Content(ring[1..]));
    res
  }

  /**
   * `findInBuffer(content, startIndex)`: -1 on a null head; from a start at
   * or beyond zero, the first buffered position at or after it holding
   * `b`, or -1.  A negative start is not checked: the head is scanned from
   * `pos + startIndex`, over bytes already consumed, so a hit there is a
   * negative position (and one at -1 reads as a miss); an array index
   * below zero throws.  Below Integer.MIN_VALUE the `(int)` cast of the
   * index wraps, and the scan then runs off the array's end unless it hits.
   */
  function FindInBuffer(ring: seq<Segment>, b: byte, start: int): (res: Result<int, IoError>)
    requires WellFormed(ring)
    ensures start >= 0 ==> res == Ok(FindBuffered(ring, b, start))
    ensures ring == [] ==> res == Ok(-1)
    ensures res.Err? ==> start < 0 && res.error == IndexOutOfBounds
    ensures start < 0 && ring != [] && -0x8000_0000 <= ring[0].pos + start ==>
      (res.Ok? <==> 0 <= ring[0].pos + start)
    ensures start < 0 && ring != [] && 0 <= ring[0].pos + start ==> res == Ok(FindConsumed(ring, b, -start))
    ensures start < 0 && ring != [] && ring[0].pos + start < -0x8000_0000 ==> res == FindWrapped(ring[0], b, start)
  {
    if ring == [] then
      Ok(-1)
    else if start >= 0 then
      Ok(FindBuffered(ring, b, start))
    else if ring[0].pos + start < -0x8000_0000 then
      FindWrapped(ring[0], b, start)
    else if ring[0].pos + start < 0 then
      Err(IndexOutOfBounds)
    else
      Ok(FindConsumed(ring, b, -start))
  }

  /**
   * The search `findInBuffer` makes from `startIndex == -back`, inside the
   * head's array: from `back` bytes before the read cursor on, over the
   * consumed bytes and then the buffered ones; positions count from the
   * read cursor.
   */
  function FindConsumed(ring: seq<Segment>, b: byte, back: nat): (res: int)
    requires WellFormed(ring) && ring != [] && back <= ring[0].pos
    ensures
      var w := Content(Rewound(ring, back));
      || (res == -1 && NoneAtOrAfter(w, b, 0))
      || FirstAtOrAfter(w, b, 0, res + back)
  {
    var w := FindFrom(Rewound(ring, back), b, 0, 0);
    if w == -1 then -1 else w - back
  }

  /**
   * The scan `findInBuffer` makes when `pos + startIndex` lies below
   * Integer.MIN_VALUE: the `(int)` cast of the index wraps to `k`, and the
   * head's array is read from `k` to its end, where the next index throws.
   * A hit is answered as its distance from `pos + startIndex`, less `pos`.
   */
  function FindWrapped(s: Segment, b: byte, start: int): (res: Result<int, IoError>)
    requires s.Valid() && s.pos + start < -0x8000_0000
    ensures
      var k := IntOf(s.pos + start);
      && (res.Ok? <==> 0 <= k < BUFFER_SIZE && !NoneAtOrAfter(s.data, b, k))
      && (res.Ok? ==> FirstAtOrAfter(s.data, b, k, res.value - start + k))
    ensures res.Err? ==> res.error == IndexOutOfBounds
    ensures res.Ok? ==> res.value < -1
  {
    var k := IntOf(s.pos + start);
    if k < 0 || k >= BUFFER_SIZE then
      Err(IndexOutOfBounds)
    else
      var q := Scan(Segment(s.data, k, BUFFER_SIZE), b, k);
      if q == -1 then Err(IndexOutOfBounds) else Ok(q - k + start)
  }

  /**
   * `indexOf(content, startIndex)` with the restart the method evidently
   * intends: after a miss, the next search starts at the old end of the
   * buffer or at `startIndex`, whichever is later.  The result is the
   * first position of `b` in the stream at or after `start`, by then
   * buffered; -1 only once the input is exhausted without one.  How much
   * it reads is stated by `IndexOfReadsAsNeeded`.
   */
  function IndexOf(r: Reader, b: byte, start: nat): (res: Read<int>)
    requires r.Valid()
    ensures res.rest.Valid() && Stream(res.rest) == Stream(r)
    ensures res.value == -1 ==> res.rest.input.rest == [] && NoneAtOrAfter(Stream(r), b, start)
    ensures res.value != -1 ==> FirstAtOrAfter(Stream(r), b, start, res.value) && res.value < res.rest.size
    decreases |r.input.rest|
  {
    SizeIsLength(r);
    var found := FindBuffered(r.queue.ring, b, start);
    if found != -1 then
      FirstInFront(Content(r.queue.ring), r.input.rest, b, start, found);
      Read(found, r)
    else
      var f := Fill(r, BUFFER_SIZE).value;
      if f.count == -1 then
        NoneInFront(Content(r.queue.ring), r.input.rest, b, start, start);
        Read(-1, f.rest)
      else
        var next := if start < r.size then r.size else start;
        var res := IndexOf(f.rest, b, next);
        if res.value == -1 then
          NoneInFront(Content(r.queue.ring), r.input.rest, b, start, next);
          res
        else
          res
  }

  /**
   * `indexOf` reads only as much as it needs: nothing when `b` is already
   * buffered at or after `start`, and when it did read, the hit lies past
   * the bytes buffered before and within one buffer's worth of the end
   * of what it pulled, so it stopped with the read that brought `b` in.
   */
  lemma {:induction false} IndexOfReadsAsNeeded(r: Reader, b: byte, start: nat)
    requires r.Valid()
    ensures !NoneAtOrAfter(Content(r.queue.ring), b, start) ==> IndexOf(r, b, start).rest == r
    ensures IndexOf(r, b, start).value != -1 && IndexOf(r, b, start).rest != r ==>
      && r.size <= IndexOf(r, b, start).value
      && IndexOf(r, b, start).rest.size - IndexOf(r, b, start).value <= BUFFER_SIZE
    decreases |r.input.rest|
  {
    SizeIsLength(r);
    if FindBuffered(r.queue.ring, b, start) == -1 {
      var f := Fill(r, BUFFER_SIZE).value;
      if f.count != -1 {
        var next := if start < r.size then r.size else start;
        IndexOfReadsAsNeeded(f.rest, b, next);
        assert IndexOf(r, b, start) == IndexOf(f.rest, b, next);
      }
    }
  }

  /** A first occurrence in a front part is the first occurrence in the whole. */
  lemma FirstInFront(c: seq<byte>, t: seq<byte>, b: byte, start: nat, k: int)
    requires FirstAtOrAfter(c, b, start, k)
    ensures FirstAtOrAfter(c + t, b, start, k)
  {
    forall j | start <= j < k ensures (c + t)[j] != b {
      assert (c + t)[j] == c[j];
    }
  }

  /** No occurrence from `start` in the front part and none from `next`, the front's end or later: none from `start`. */
  lemma NoneInFront(c: seq<byte>, t: seq<byte>, b: byte, start: nat, next: nat)
    requires NoneAtOrAfter(c, b, start)
    requires next == start || next == |c|
    requires NoneAtOrAfter(c + t, b, next) || (next == start && t == [])
    ensures NoneAtOrAfter(c + t, b, start)
  {
    forall j | start <= j < |c + t| ensures (c + t)[j] != b {
      if j < |c| {
        assert (c + t)[j] == c[j];
      }
    }
  }

  /**
   * `indexOf(content, startIndex)` as written: after a miss the next search
   * starts at the old end of the buffer (`startIndex = size`) even when
   * `startIndex` lay beyond it, so the search can go back below
   * `startIndex`.  A non-negative result is still a position holding `b`.
   * A negative start is passed to `findInBuffer` unchecked: it can throw,
   * or answer a consumed byte's negative position without reading.
   */
  function IndexOfAsWritten(r: Reader, b: byte, start: int): (res: Result<Read<int>, IoError>)
    requires r.Valid()
    ensures start >= 0 ==> res.Ok?
    ensures res.Err? <==> FindInBuffer(r.queue.ring, b, start).Err?
    ensures res.Err? ==> res.error == IndexOutOfBounds
    ensures res.Ok? ==> res.value.rest.Valid() && Stream(res.value.rest) == Stream(r)
    ensures res.Ok? && res.value.value == -1 ==> res.value.rest.input.rest == []
    ensures res.Ok? && res.value.value >= 0 ==>
      var k := res.value.value;
      k < |Stream(r)| && Stream(r)[k] == b && k < res.value.rest.size
    ensures res.Ok? && res.value.value < -1 ==>
      start < 0 && res.value.rest == r && FindInBuffer(r.queue.ring, b, start) == Ok(res.value.value)
    decreases |r.input.rest|
  {
    SizeIsLength(r);
    var found :- FindInBuffer(r.queue.ring, b, start);
    if found != -1 then
      FoundIsBuffered(r, b, start, found);
      Ok(Read(found, r))
    else
      var f := Fill(r, BUFFER_SIZE).value;
      if f.count == -1 then
        Ok(Read(-1, f.rest))
      else
        IndexOfAsWritten(f.rest, b, r.size)
  }

  /** A position `findInBuffer` answers at or above zero, whatever the start, is a buffered position holding `b`. */
  lemma FoundIsBuffered(r: Reader, b: byte, start: int, k: int)
    requires r.Valid() && FindInBuffer(r.queue.ring, b, start) == Ok(k)
    ensures k >= 0 ==> k < r.size && k < |Stream(r)| && Stream(r)[k] == b
  {
    SizeIsLength(r);
    var ring := r.queue.ring;
    if k >= 0 && start < 0 && ring != [] {
      if ring[0].pos + start >= 0 {
        var d := ring[0].data[ring[0].pos + start..ring[0].pos];
        var w := Content(Rewound(ring, -start));
        assert k == FindConsumed(ring, b, -start);
        IndexConcat(w, d, Content(ring));
      }
    }
  }

  /** When the start lies within the buffer, the method as written and the corrected one agree. */
  lemma {:induction false} IndexOfAgrees(r: Reader, b: byte, start: nat)
    requires r.Valid() && start <= r.size
    ensures IndexOfAsWritten(r, b, start) == Ok(IndexOf(r, b, start))
    decreases |r.input.rest|
  {
    SizeIsLength(r);
    if FindInBuffer(r.queue.ring, b, start) == Ok(-1) {
      var f := Fill(r, BUFFER_SIZE).value;
      if f.count != -1 {
        IndexOfAgrees(f.rest, b, r.size);
      }
    }
  }

  /**
   * In general the method as written searches from the smaller of
   * `startIndex` and the buffered size: a start beyond the buffer is
   * pulled back to its end.
   */
  lemma IndexOfAsWrittenStartsAtSize(r: Reader, b: byte, start: nat)
    requires r.Valid()
    ensures IndexOfAsWritten(r, b, start) == Ok(IndexOf(r, b, if start < r.size then start else r.size))
  {
    SizeIsLength(r);
    if start <= r.size {
      IndexOfAgrees(r, b, start);
    } else {
      assert FindInBuffer(r.queue.ring, b, r.size) == Ok(-1);
      assert FindBuffered(r.queue.ring, b, r.size) == -1;
      var f := Fill(r, BUFFER_SIZE).value;
      if f.count != -1 {
        IndexOfAgrees(f.rest, b, r.size);
        assert IndexOf(r, b, r.size) == IndexOf(f.rest, b, r.size);
      }
    }
  }

  /**
   * The discrepancy on a concrete stream: nothing buffered, a stream
   * holding just `b`, and a start of 1.  The method as written reports
   * `b` at position 0, below the start; the corrected one reports none.
   */
  lemma IndexOfAsWrittenGoesBack(b: byte)
    ensures IndexOfAsWritten(Open(Input([b], [])), b, 1).Ok?
    ensures IndexOfAsWritten(Open(Input([b], [])), b, 1).value.value == 0
    ensures IndexOf(Open(Input([b], [])), b, 1).value == -1
  {
    var r := Open(Input([b], []));
    assert r.size == 0 && Stream(r) == [b];
    IndexOfAsWrittenStartsAtSize(r, b, 1);
    var res := IndexOf(r, b, 0);
    assert !NoneAtOrAfter(Stream(r), b, 0) by {
      assert Stream(r)[0] == b;
    }
    assert FirstAtOrAfter(Stream(r), b, 0, res.value);
    var res1 := IndexOf(r, b, 1);
    assert !FirstAtOrAfter(Stream(r), b, 1, res1.value);
  }

  /**
   * A negative start reads bytes already consumed: with `b` two places
   * before the head's read cursor, `indexOf(b, -2)` answers -2, a position
   * before the stream, and reads nothing.
   */
  lemma IndexOfBeforeStream(r: Reader, b: byte)
    requires r.Valid() && r.queue.ring != []
    requires r.queue.ring[0].pos >= 2 && r.queue.ring[0].data[r.queue.ring[0].pos - 2] == b
    ensures IndexOfAsWritten(r, b, -2) == Ok(Read(-2, r))
  {
    var w := Content(Rewound(r.queue.ring, 2));
    assert w[0] == b;
  }

  /**
   * A hit one place before the head's read cursor is position -1, which
   * `indexOf` takes for a miss: the search restarts after everything
   * buffered, past any `b` the buffer holds.
   */
  lemma IndexOfHitAtMinusOne(r: Reader, b: byte)
    requires r.Valid() && r.queue.ring != []
    requires r.queue.ring[0].pos >= 1 && r.queue.ring[0].data[r.queue.ring[0].pos - 1] == b
    ensures FindInBuffer(r.queue.ring, b, -1) == Ok(-1)
    ensures IndexOfAsWritten(r, b, -1) == Ok(IndexOf(r, b, r.size))
  {
    HitAtMinusOne(r.queue.ring, b);
    SizeIsLength(r);
    assert FindBuffered(r.queue.ring, b, r.size) == -1;
    var f := Fill(r, BUFFER_SIZE).value;
    if f.count != -1 {
      IndexOfAgrees(f.rest, b, r.size);
    }
  }

  /** The byte just before the head's read cursor is found at -1. */
  lemma HitAtMinusOne(ring: seq<Segment>, b: byte)
    requires WellFormed(ring) && ring != [] && ring[0].pos >= 1 && ring[0].data[ring[0].pos - 1] == b
    ensures FindInBuffer(ring, b, -1) == Ok(-1)
  {
    var w := Content(Rewound(ring, 1));
    assert w[0] == b;
  }

  // -----------------------------------------------------------------------
  // Lines.
  // -----------------------------------------------------------------------

  const LF: byte := 0x0a
  const CR: byte := 0x0d

  /** The position of the first `b` in `s`, or `|s|` when there is none. */
  function FirstIndex(s: seq<byte>, b: byte): (k: nat)
    ensures k <= |s| && forall j | 0 <= j < k :: s[j] != b
    ensures k < |s| ==> s[k] == b
  {
    if s == [] then 0 else if s[0] == b then 0 else 1 + FirstIndex(s[1..], b)
  }

  /** One line taken off a byte sequence, and what follows its terminator; no line when the sequence is empty. */
  datatype Line = Line(line: Option<seq<byte>>, rest: seq<byte>)

  /**
   * The line discipline, stated on its own: a line runs up to the first
   * LF, which is dropped together with one CR just before it; a last line
   * need not end in LF; an empty sequence holds no line.
   */
  function SplitLine(s: seq<byte>): Line {
    var k := FirstIndex(s, LF);
    if k == |s| then
      if s == [] then Line(None, []) else Line(Some(s), [])
    else if k > 0 && s[k - 1] == CR then
      Line(Some(s[..k - 1]), s[k + 1..])
    else
      Line(Some(s[..k]), s[k + 1..])
  }

  /**
   * What `SplitLine` promises: the line holds no LF, and the sequence is
   * the line, then a terminator (CR LF, LF, or nothing at the very end),
   * then the rest.  A line that SplitLine ends at an LF alone does not
   * itself end in CR.
   */
  lemma SplitLineParts(s: seq<byte>)
    ensures SplitLine(s).line.None? <==> s == []
    ensures SplitLine(s).line.Some? ==> LF !in SplitLine(s).line.value
    ensures SplitLine(s).line.Some? ==>
      var l := SplitLine(s).line.value;
      var rest := SplitLine(s).rest;
      || (s == l + [CR, LF] + rest)
      || (s == l + [LF] + rest && (l == [] || l[|l| - 1] != CR))
      || (s == l && rest == [])
  {
    var k := FirstIndex(s, LF);
    if k < |s| {
      if k > 0 && s[k - 1] == CR {
        assert s == s[..k - 1] + [CR, LF] + s[k + 1..];
      } else {
        assert s == s[..k] + [LF] + s[k + 1..];
      }
    }
  }

  /** The line taken off `s`, if any, fits in a Java string: `readString` refuses a longer one. */
  predicate LineFits(s: seq<byte>) {
    SplitLine(s).line.Some? ==> |SplitLine(s).line.value| <= INT_MAX
  }

  /**
   * `readLine(charsetName)`, before decoding: finds the first LF of the
   * stream, then reads the bytes before it (without a CR just before it)
   * and skips the terminator.  Without an LF, the rest of the stream is
   * the last line, or there is no line at all.  It calls `indexOf` and
   * `valueOf` as written; on these calls (from 0, and at `newLine - 1`,
   * a buffered position) they answer as the corrected ones do, by
   * `IndexOfAgrees` and `ValueOfAgrees`.
   */
  function ReadLine(r: Reader): (res: Result<Read<Option<seq<byte>>>, IoError>)
    requires r.Valid()
    ensures res.Err? ==> res.error == IllegalArgument
    ensures res.Ok? ==> res.value.rest.Valid()
    ensures res.Ok? <==> LineFits(Stream(r))
    ensures res.Ok? ==> res.value.value == SplitLine(Stream(r)).line
    ensures res.Ok? ==> Stream(res.value.rest) == SplitLine(Stream(r)).rest
  {
    var found := IndexOfAsWritten(r, LF, 0).value;
    IndexOfAgrees(r, LF, 0);
    FirstIndexOf(Stream(r), found.value);
    if found.value == -1 then
      ReadLastLine(found.rest)
    else
      ReadTerminatedLine(found.rest, found.value)
  }

  /** `IndexOf`'s answer for LF from 0 is where `FirstIndex` puts the first LF. */
  lemma FirstIndexOf(s: seq<byte>, k: int)
    requires k == -1 ==> NoneAtOrAfter(s, LF, 0)
    requires k != -1 ==> FirstAtOrAfter(s, LF, 0, k)
    ensures k == -1 ==> FirstIndex(s, LF) == |s|
    ensures k != -1 ==> FirstIndex(s, LF) == k
  {
  }

  /** The branch of `readLine` with no LF in the stream, which is all buffered. */
  function ReadLastLine(r: Reader): (res: Result<Read<Option<seq<byte>>>, IoError>)
    requires r.Valid() && r.input.rest == [] && FirstIndex(Stream(r), LF) == |Stream(r)|
    ensures res.Err? ==> res.error == IllegalArgument
    ensures res.Ok? ==> res.value.rest.Valid()
    ensures res.Ok? <==> LineFits(Stream(r))
    ensures res.Ok? ==> res.value.value == SplitLine(Stream(r)).line
    ensures res.Ok? ==> Stream(res.value.rest) == SplitLine(Stream(r)).rest
  {
    SizeIsLength(r);
    if r.size != 0 then
      var x :- ReadString(r, r.size);
      assert Stream(r)[..r.size] == Stream(r);
      Ok(Read(Some(x.value), x.rest))
    else
      Ok(Read(None, r))
  }

  /** The branch of `readLine` with the first LF of the stream buffered at position `k`. */
  function ReadTerminatedLine(r: Reader, k: int): (res: Result<Read<Option<seq<byte>>>, IoError>)
    requires r.Valid() && 0 <= k < r.size && FirstIndex(Stream(r), LF) == k
    ensures res.Err? ==> res.error == IllegalArgument
    ensures res.Ok? ==> res.value.rest.Valid()
    ensures res.Ok? <==> LineFits(Stream(r))
    ensures res.Ok? ==> res.value.value == SplitLine(Stream(r)).line
    ensures res.Ok? ==> Stream(res.value.rest) == SplitLine(Stream(r)).rest
  {
    SizeIsLength(r);
    var s := Stream(r);
    var afterCR := k > 0 && (ValueOfAgrees(r, k - 1); ValueOfAsWritten(r, k - 1) == Ok(CR));
    if afterCR then
      assert SplitLine(s) == Line(Some(s[..k - 1]), s[k + 1..]);
      var x :- ReadString(r, k - 1);
      assert Stream(x.rest) == s[k - 1..];
      TakeSplit(s, k - 1, 2);
      var r2 := Skip(x.rest, 2).value;
      Ok(Read(Some(x.value), r2))
    else
      assert SplitLine(s) == Line(Some(s[..k]), s[k + 1..]);
      var x :- ReadString(r, k);
      assert Stream(x.rest) == s[k..];
      TakeSplit(s, k, 1);
      var r2 := Skip(x.rest, 1).value;
      Ok(Read(Some(x.value), r2))
  }

  /** The three lines of "a" CR LF "b" LF " c", as the line discipline splits them. */
  lemma SplitLineExample()
    ensures SplitLine([0x61, CR, LF, 0x62, LF, 0x20, 0x63]) == Line(Some([0x61]), [0x62, LF, 0x20, 0x63])
    ensures SplitLine([0x62, LF, 0x20, 0x63]) == Line(Some([0x62]), [0x20, 0x63])
    ensures SplitLine([0x20, 0x63]) == Line(Some([0x20, 0x63]), [])
    ensures SplitLine([]) == Line(None, [])
  {
    var s: seq<byte> := [0x61, CR, LF, 0x62, LF, 0x20, 0x63];
    assert FirstIndex(s, LF) == 2 by {
      assert s[0] != LF && s[1] != LF && s[2] == LF;
    }
    assert s[..1] == [0x61] && s[3..] == [0x62, LF, 0x20, 0x63];
    var t: seq<byte> := [0x62, LF, 0x20, 0x63];
    assert FirstIndex(t, LF) == 1 by {
      assert t[0] != LF && t[1] == LF;
    }
    assert t[..1] == [0x62] && t[2..] == [0x20, 0x63];
    var u: seq<byte> := [0x20, 0x63];
    assert FirstIndex(u, LF) == 2 by {
      assert u[0] != LF && u[1] != LF;
    }
  }

  /**
   * Lines end at LF or CR LF, and a last line needs no terminator: the
   * stream "a" CR LF "b" LF " c" reads as "a", "b", " c" and then no line.
   */
  lemma ReadLineExample(r: Reader)
    requires r.Valid() && Stream(r) == [0x61, CR, LF, 0x62, LF, 0x20, 0x63]
    ensures ReadLine(r).Ok? && ReadLine(r).value.value == Some([0x61])
    ensures var r1 := ReadLine(r).value.rest;
      && ReadLine(r1).Ok? && ReadLine(r1).value.value == Some([0x62])
      && var r2 := ReadLine(r1).value.rest;
      && ReadLine(r2).Ok? && ReadLine(r2).value.value == Some([0x20, 0x63])
      && var r3 := ReadLine(r2).value.rest;
      && ReadLine(r3).Ok? && ReadLine(r3).value.value == None
  {
    SplitLineExample();
    var x1 := ReadLine(r);
    var r1 := x1.value.rest;
    assert Stream(r1) == [0x62, LF, 0x20, 0x63];
    var x2 := ReadLine(r1);
    var r2 := x2.value.rest;
    assert Stream(r2) == [0x20, 0x63];
    var x3 := ReadLine(r2);
    var r3 := x3.value.rest;
    assert Stream(r3) == [];
  }
}
