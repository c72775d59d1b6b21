/**
 * The underlying `InputStream`, abstracted to the bytes it has still to
 * deliver plus its freedom to deliver fewer bytes than asked for.
 */
module InputSource {
  import opened Bytes

  /**
   * `rest` is what the stream will still deliver, in order.  `script`
   * chooses chunk sizes: the next `read` wants `script[0]` bytes (clamped to
   * what can be delivered); once the script is used up every `read` fills
   * as much as it may.  Any finite run of the real stream is one script.
   */
  datatype Input = Input(rest: seq<byte>, script: seq<nat>)

  /** What one `read(b, off, len)` call does: `-1` at end of input, or a chunk. */
  datatype Pulled = EndOfInput | Chunk(bytes: seq<byte>, next: Input)

  /**
   * `inputStream.read(b, off, max)`: a request for zero bytes returns zero
   * bytes; otherwise the stream reports its end (-1) only when nothing is
   * left, and else delivers between 1 and `max` bytes, in order.
   */
  function Pull(i: Input, max: nat): (p: Pulled)
    ensures p.EndOfInput? <==> max > 0 && i.rest == []
    ensures p.Chunk? ==> p.bytes + p.next.rest == i.rest
    ensures p.Chunk? ==> |p.bytes| <= max
    ensures p.Chunk? && max > 0 ==> 1 <= |p.bytes|
  {
    if max == 0 then
      Chunk([], i)
    else if i.rest == [] then
      EndOfInput
    else
      var cap := if max < |i.rest| then max else |i.rest|;
      var want := if i.script != [] then i.script[0] else cap;
      var n := if want < 1 then 1 else if want > cap then cap else want;
      assert i.rest[..n] + i.rest[n..] == i.rest;
      Chunk(i.rest[..n], Input(i.rest[n..], if i.script != [] then i.script[1..] else []))
  }
}
