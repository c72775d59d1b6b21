# Buffered binary streams of the nexus upload plugin, in Dafny

The plugin reads and writes binary data through two wrappers:

- `InputStreamWrapper` sits over an `InputStream`.
- `OutputStreamWrapper` sits over an `OutputStream`.

Both keep their bytes in a circular, doubly linked list of fixed-size
segments (`IOBuffer`, 2048 bytes each). A segment holds its bytes between a
read cursor `pos` and a write cursor `limit`. Emptied segments go back to a
bounded free list (`IOBufferPool`, at most 64 KiB). The fixed-width integer
codec (`ConvertUtils`) gives the byte order of every typed read and write.
Two helpers from `Utils` are modelled as well:

- `checkParams` rejects absent or blank parameters.
- `buildUploadScript` checks eight parameters and renders the Gradle upload
  script from them.

This project models that core as pure functions over immutable values and
proves what each operation does to the byte stream.

**Data model**

- A segment is `IOBuffer.Segment(data, pos, limit)`.
- A ring is the sequence of its segments, head first (`BufferQueue.Queue`),
  together with its pool.
- The `previous`/`next` pointers are modelled separately, on an arena of
  link records (`IOBuffer.Links`). There it is proved that:
  - `push` after the tail appends a segment;
  - `pop` of the head drops the first one.
- Bytes are `bv8`. Java's `short`, `int` and `long` are `bv16`, `bv32` and
  `bv64`: the source only shifts and masks them, so signedness never shows.

**Reader** (`InputStreamWrapper.Reader`)

- It holds the ring, the `size` counter and the input not yet pulled.
- `Stream(r)` is what a reader still has to deliver: the buffered bytes
  followed by the unread input.
- Every read is stated against `Stream`: which prefix it returns, and that
  the rest of the stream is what remains.

**Writer** (`OutputStreamWrapper.Writer`)

- It holds the ring, `size`, and the bytes already handed to the output
  stream.
- `Emitted(w)` is the output followed by the buffered bytes.
- Every write is stated against `Emitted`.

**Round trip** (module `RoundTrip`): any sequence of typed values is
- written to a fresh writer,
- flushed,
- and read by a reader over the flushed output, in any chunking of the
  input.

It comes back value by value, with nothing left over.  Byte arrays in
that sequence are written with the corrected `writeString` (see Findings);
with the wrapper as written the round trip is proved for typed values.

The underlying streams are parameters:

- The reader's `InputStream` is an `InputSource.Input`: the bytes it will
  produce, plus a script of how many bytes each `read` call returns.
- The writer's `OutputStream` is the sequence of bytes written to it.

Exceptions are `Err` results: `IoError` for the wrappers, `Utils.Failure`
for `checkParams`.

## Model

| member | source | states |
|---|---|---|
| IOBuffer.NewSegment | src/com/lm/utils/io/bean/IOBuffer.java:11-20 | a fresh buffer holds `BUFFER_SIZE` (2048) bytes with both cursors at 0 |
| IOBuffer.Append | src/com/lm/utils/io/InputStreamWrapper.java:408-410 | writing at `limit` and advancing it adds exactly those bytes to the readable part, keeping `pos` |
| IOBuffer.CopyInto | src/com/lm/plugin/idea/nexus/utils/io/OutputStreamWrapper.java:177 | an array copy into a buffer changes exactly the target range and nothing else |
| IOBuffer.PushLinks | src/com/lm/utils/io/bean/IOBuffer.java:39-45 | `push` links the new buffer between `this` and its old `next`, and changes no other buffer's links |
| IOBuffer.PushKeepsRing | src/com/lm/utils/io/bean/IOBuffer.java:39-45 | on a well-linked ring, `push` returns the new buffer and leaves a ring with it inserted right after `this` |
| IOBuffer.PopLinks | src/com/lm/utils/io/bean/IOBuffer.java:29-36 | `pop` joins its neighbours to each other, unlinks itself, and changes no other buffer |
| IOBuffer.PopKeepsRing | src/com/lm/utils/io/bean/IOBuffer.java:29-36 | `pop` returns `next`, or null when the buffer was alone; the rest is still a ring, with that buffer removed |
| IOBuffer.PushThenPop | src/com/lm/utils/io/bean/IOBuffer.java:29-45 | popping a freshly pushed buffer restores every link and returns the old `next` |
| IOBuffer.PushAfterTailAppends | src/com/lm/utils/io/bean/IOBuffer.java:39-45 | pushing after `head.previous`, as both `getBuffer`s do, appends to the ring's order |
| IOBuffer.PopHeadDropsFirst | src/com/lm/utils/io/bean/IOBuffer.java:29-36 | popping the head, as `recycleBufferIfNecessary` does, drops the first buffer and returns the new head |
| IOBufferPool.Take | src/main/java/com/lm/utils/io/bean/IOBufferPool.java:16-29 | a pooled buffer is taken from the front and the byte count drops by one buffer; an empty pool gives a new buffer |
| IOBufferPool.RecycleDetached | src/main/java/com/lm/utils/io/bean/IOBufferPool.java:33-39 | past the 64 KiB bound the buffer is dropped; otherwise it is reset and put first, and the count grows by one buffer |
| IOBufferPool.Recycle | src/main/java/com/lm/utils/io/bean/IOBufferPool.java:31-40 | a buffer that is still linked is refused with `IllegalArgumentException`; a detached one is recycled |
| IOBufferPool.RunKeepsBound | src/main/java/com/lm/utils/io/bean/IOBufferPool.java:11-40 | after any sequence of takes and recycles the pool holds at most 64 KiB, that is 32 buffers |
| BufferQueue.GetBuffer | src/com/lm/utils/io/InputStreamWrapper.java:421-435 | fails unless `1 <= minimumCapacity <= BUFFER_SIZE`; otherwise returns a tail with that much room, adding a fresh buffer exactly when the ring is empty or the tail is too full, and never changing the content |
| BufferQueue.RecycleHead | src/com/lm/utils/io/InputStreamWrapper.java:442-447 | an exhausted head is removed and everything else kept; the content is unchanged |
| BufferQueue.Advance | src/com/lm/utils/io/InputStreamWrapper.java:39-42 | moving the head's `pos` by `n` and recycling removes exactly the first `n` bytes of the content |
| BufferQueue.FillTail | src/com/lm/utils/io/InputStreamWrapper.java:408-411 | bytes written at the tail's `limit` are appended to the content, and no other buffer changes |
| BufferQueue.BufferedIsLength | src/com/lm/utils/io/InputStreamWrapper.java:21 | the sum of `limit - pos` over the ring is the number of buffered bytes |
| InputSource.Pull | src/com/lm/utils/io/InputStreamWrapper.java:408-409 | `inputStream.read(b, off, len)` returns -1 exactly at end of input with `len > 0`; otherwise a prefix of the remaining input, at most `len` bytes and at least one when `len > 0` |
| InputStreamWrapper.Open | src/com/lm/utils/io/InputStreamWrapper.java:23-26 | a new reader buffers nothing, so its stream is its whole input |
| InputStreamWrapper.Fill | src/com/lm/utils/io/InputStreamWrapper.java:403-413 | a negative count is refused; -1 exactly when `requireCount > 0` and the input is exhausted (a request for 0 bytes answers 0 even at the end); otherwise up to `requireCount` bytes move from the input into the buffer, and the stream never changes |
| InputStreamWrapper.Require | src/com/lm/utils/io/InputStreamWrapper.java:379-383 | succeeds exactly when the stream holds `requireCount` bytes and then buffers at least that many; otherwise `EOFException` |
| InputStreamWrapper.RequireAll | src/com/lm/utils/io/InputStreamWrapper.java:390-394 | afterwards the input is exhausted and the buffer holds the whole stream |
| InputStreamWrapper.ReadByte | src/com/lm/utils/io/InputStreamWrapper.java:34-45 | the first byte of the stream, consuming it, or `EOFException` on an empty stream |
| InputStreamWrapper.ReadEach | src/com/lm/utils/io/InputStreamWrapper.java:68-70 | successive `readByte` calls return the next `n` bytes of the stream in order |
| InputStreamWrapper.ReadShort | src/com/lm/utils/io/InputStreamWrapper.java:63-78 | the two first bytes of the stream are the big-endian encoding of the result, both when they are in one buffer and when they straddle two |
| InputStreamWrapper.ReadInt | src/com/lm/utils/io/InputStreamWrapper.java:96-117 | the four first bytes are the big-endian encoding of the result, on both paths |
| InputStreamWrapper.ReadLong | src/com/lm/utils/io/InputStreamWrapper.java:135-158 | the eight first bytes are the big-endian encoding of the result, on both paths |
| InputStreamWrapper.ReadBufferedLong | src/com/lm/utils/io/InputStreamWrapper.java:144-157 | the one-buffer path of `readLong` decodes the eight first bytes |
| InputStreamWrapper.ReadTwoInts | src/com/lm/utils/io/InputStreamWrapper.java:140-142 | the straddling path of `readLong`, two `readInt`s joined, also decodes the eight first bytes |
| InputStreamWrapper.ReadShortLE | src/com/lm/utils/io/InputStreamWrapper.java:53-55 | the two first bytes are the little-endian encoding of the result |
| InputStreamWrapper.ReadIntLE | src/com/lm/utils/io/InputStreamWrapper.java:86-88 | the four first bytes are the little-endian encoding of the result |
| InputStreamWrapper.ReadLongLE | src/com/lm/utils/io/InputStreamWrapper.java:125-127 | the eight first bytes are the little-endian encoding of the result |
| InputStreamWrapper.TakeBytes | src/com/lm/utils/io/InputStreamWrapper.java:176-186 | the copy loop returns exactly the first `n` buffered bytes and removes them |
| InputStreamWrapper.ReadBytes | src/com/lm/utils/io/InputStreamWrapper.java:167-187 | a count outside `1..Integer.MAX_VALUE` is refused; otherwise the first `readCount` bytes, or `EOFException` when the stream is shorter |
| InputStreamWrapper.Skip | src/com/lm/utils/io/InputStreamWrapper.java:281-290 | drops the first `skipCount` bytes when the stream has them, else `EOFException`; a count of 0 or less drops nothing |
| InputStreamWrapper.DropIsTakeRest | src/com/lm/utils/io/InputStreamWrapper.java:176-186 | the skip loop leaves the reader exactly as the `readBytes` copy loop does |
| InputStreamWrapper.SkipIsReadDiscard | src/com/lm/utils/io/InputStreamWrapper.java:167-187 | for counts `readBytes` accepts, `skip` succeeds exactly when `readBytes` does and leaves the same reader |
| InputStreamWrapper.ReadString | src/com/lm/utils/io/InputStreamWrapper.java:231-251 | the first `readCount` bytes, taken from the head buffer or through `readBytes`; a count over `Integer.MAX_VALUE` is refused; a negative `int`-range count throws |
| InputStreamWrapper.ReadAll | src/com/lm/utils/io/InputStreamWrapper.java:270-273 | the whole stream, leaving it empty |
| InputStreamWrapper.Locate | src/com/lm/utils/io/InputStreamWrapper.java:302-308 | walking the buffers from the head finds the byte at `index` of the buffered content |
| InputStreamWrapper.ValueOf | src/com/lm/utils/io/InputStreamWrapper.java:298-309 | with the evidently intended guard, a byte exactly for `0 <= index < size`, namely the byte at that position |
| InputStreamWrapper.ValueOfAsWritten | src/com/lm/utils/io/InputStreamWrapper.java:298-309 | the guard as written: indexes below `size` give that byte, `index > size` throws, `index == size` wraps to the head byte, and a negative index reads the head's array at `pos + (int) index` when that is inside it; with a null head every `index <= size` throws `NullPointerException`; only `index == 0` on an empty, non-null head, which never returns, is excluded |
| InputStreamWrapper.ValueOfAgrees | src/com/lm/utils/io/InputStreamWrapper.java:298-309 | on `0 <= index < size` the as-written and the intended `valueOf` agree |
| InputStreamWrapper.ValueOfAtSizeWraps | src/com/lm/utils/io/InputStreamWrapper.java:299 | `valueOf(size)` returns the first buffered byte instead of throwing |
| InputStreamWrapper.Scan | src/com/lm/utils/io/InputStreamWrapper.java:359-363 | the inner loop finds the first occurrence at or after `pos` in one buffer, or none |
| InputStreamWrapper.FindBuffered | src/com/lm/utils/io/InputStreamWrapper.java:346-371 | for `startIndex >= 0`: the first buffered occurrence at or after `startIndex`, or -1 when there is none |
| InputStreamWrapper.Rewound | src/com/lm/utils/io/InputStreamWrapper.java:359 | scanning from `pos + startIndex < pos` reads the head's consumed bytes `data[pos + startIndex..pos]` ahead of the buffered content |
| InputStreamWrapper.FindFrom | src/com/lm/utils/io/InputStreamWrapper.java:353-368 | the do-while over the buffers, skipping whole buffers while `startIndex` exceeds their count, answers the first occurrence at or after the start, or -1 |
| InputStreamWrapper.FindInBuffer | src/com/lm/utils/io/InputStreamWrapper.java:346-371 | -1 on a null head; a non-negative `startIndex` gives the buffered search; a negative one throws exactly when `pos + startIndex` is below zero, down to `Integer.MIN_VALUE`, and otherwise scans from there (`FindConsumed`, `FindWrapped`) |
| InputStreamWrapper.FindConsumed | src/com/lm/utils/io/InputStreamWrapper.java:359-368 | from `startIndex = -back` within the head's array: the first occurrence among the consumed bytes from there and then the buffered ones, at its position counted from the read cursor, or -1 |
| InputStreamWrapper.FindWrapped | src/com/lm/utils/io/InputStreamWrapper.java:359-361 | once the `(int)` cast of `pos + startIndex` wraps to `k`: the first occurrence in the head's array from `k`, at a position below -1, and otherwise `ArrayIndexOutOfBoundsException` |
| InputStreamWrapper.FoundIsBuffered | src/com/lm/utils/io/InputStreamWrapper.java:359-361 | whatever the start, a non-negative answer of `findInBuffer` is a buffered position holding the byte |
| InputStreamWrapper.IndexOf | src/com/lm/utils/io/InputStreamWrapper.java:330-337 | the intended search: the first occurrence at or after `startIndex` in the whole stream, by then buffered, with the stream unchanged; -1 only when the input is exhausted and the stream has none |
| InputStreamWrapper.IndexOfReadsAsNeeded | src/com/lm/utils/io/InputStreamWrapper.java:322-337 | the search reads until the byte is found and no further: nothing is read when `b` is already buffered at or after the start, and a hit that needed reading lies past the bytes buffered before, within one buffer of the end of what was read |
| InputStreamWrapper.IndexOfAsWritten | src/com/lm/utils/io/InputStreamWrapper.java:330-337 | the search as written: a non-negative result is a position holding the byte, -1 comes once the input is exhausted; a negative start throws exactly when `findInBuffer` does, and a result below -1 is a consumed byte found without reading |
| InputStreamWrapper.IndexOfAgrees | src/com/lm/utils/io/InputStreamWrapper.java:330-337 | for `startIndex <= size` the as-written search is the intended one |
| InputStreamWrapper.IndexOfAsWrittenStartsAtSize | src/com/lm/utils/io/InputStreamWrapper.java:333 | a start beyond `size` is treated as `size`, because a miss resets `startIndex` |
| InputStreamWrapper.IndexOfAsWrittenGoesBack | src/com/lm/utils/io/InputStreamWrapper.java:333 | over the input `[b]`, a search for `b` from 1 returns 0, which is before the start |
| InputStreamWrapper.IndexOfBeforeStream | src/com/lm/utils/io/InputStreamWrapper.java:359-361 | with `b` two bytes before the head's read cursor, `indexOf(b, -2)` returns -2 and reads nothing |
| InputStreamWrapper.HitAtMinusOne | src/com/lm/utils/io/InputStreamWrapper.java:359-361 | with `b` just before the head's read cursor, `findInBuffer(b, -1)` returns -1 |
| InputStreamWrapper.IndexOfHitAtMinusOne | src/com/lm/utils/io/InputStreamWrapper.java:332-334 | that -1 is taken for a miss: `indexOf(b, -1)` then searches from `size`, past every buffered byte |
| InputStreamWrapper.SplitLineParts | src/com/lm/utils/io/InputStreamWrapper.java:206-221 | a line is the text before the first LF, without a CR right before it; the rest follows the terminator; an empty stream has no line |
| InputStreamWrapper.ReadLine | src/com/lm/utils/io/InputStreamWrapper.java:206-221 | with `indexOf` and `valueOf` as written: returns the first line of the stream and consumes it with its `\r\n` or `\n`; at end of stream null; the last, unterminated line whole; fails, with `IllegalArgumentException` from `readString`, exactly when that line is longer than `Integer.MAX_VALUE` |
| InputStreamWrapper.ReadLastLine | src/com/lm/utils/io/InputStreamWrapper.java:208-209 | without a newline, the rest of the stream is the line, or null when nothing is left; fails exactly when the rest is longer than `Integer.MAX_VALUE` |
| InputStreamWrapper.ReadTerminatedLine | src/com/lm/utils/io/InputStreamWrapper.java:212-220 | with a newline at `newLine`, the text before it less a trailing CR, skipping two or one terminator bytes; fails exactly when that text is longer than `Integer.MAX_VALUE` |
| InputStreamWrapper.ReadLineExample | src/com/lm/utils/io/InputStreamWrapper.java:206-221 | `a\r\nb\n c` reads as the lines `a`, `b`, ` c`, then null |
| OutputStreamWrapper.Open | src/com/lm/plugin/idea/nexus/utils/io/OutputStreamWrapper.java:22-25 | a new writer has emitted nothing |
| OutputStreamWrapper.RealWrite | src/com/lm/plugin/idea/nexus/utils/io/OutputStreamWrapper.java:224-235 | moves `needWriteCount` bytes to the output; what was emitted is unchanged |
| OutputStreamWrapper.RealWriteMovesFront | src/com/lm/plugin/idea/nexus/utils/io/OutputStreamWrapper.java:224-235 | the bytes written out are the first `needWriteCount` buffered bytes, in order |
| OutputStreamWrapper.Commit | src/com/lm/plugin/idea/nexus/utils/io/OutputStreamWrapper.java:206-216 | with nothing buffered it changes nothing; otherwise the output receives everything except the bytes of a tail that still has room, or everything when the tail is full; at most one buffer stays behind, with room left |
| OutputStreamWrapper.CommitSendsFront | src/com/lm/plugin/idea/nexus/utils/io/OutputStreamWrapper.java:210-215 | the bytes handed over by `realWrite(size - kept)` are everything written before the kept tail |
| OutputStreamWrapper.Flush | src/com/lm/plugin/idea/nexus/utils/io/OutputStreamWrapper.java:193-199 | the output becomes everything emitted and nothing stays buffered |
| OutputStreamWrapper.WriteByte | src/com/lm/plugin/idea/nexus/utils/io/OutputStreamWrapper.java:34-40 | appends the byte, and the commit leaves less than one buffer pending |
| OutputStreamWrapper.WriteShort | src/com/lm/plugin/idea/nexus/utils/io/OutputStreamWrapper.java:60-67 | appends the big-endian encoding, then commits |
| OutputStreamWrapper.WriteInt | src/com/lm/plugin/idea/nexus/utils/io/OutputStreamWrapper.java:87-95 | appends the big-endian encoding without committing: the output stream is untouched |
| OutputStreamWrapper.WriteLong | src/com/lm/plugin/idea/nexus/utils/io/OutputStreamWrapper.java:115-127 | appends the big-endian encoding without committing |
| OutputStreamWrapper.WriteShortLE | src/com/lm/plugin/idea/nexus/utils/io/OutputStreamWrapper.java:49-51 | appends the little-endian encoding |
| OutputStreamWrapper.WriteIntLE | src/com/lm/plugin/idea/nexus/utils/io/OutputStreamWrapper.java:76-78 | appends the little-endian encoding |
| OutputStreamWrapper.WriteLongLE | src/com/lm/plugin/idea/nexus/utils/io/OutputStreamWrapper.java:104-106 | appends the little-endian encoding |
| OutputStreamWrapper.CopyRound | src/com/lm/plugin/idea/nexus/utils/io/OutputStreamWrapper.java:175-179 | one round of the intended copy loop appends between 1 and `limit - off` of the next bytes |
| OutputStreamWrapper.CopyChunksAppends | src/com/lm/plugin/idea/nexus/utils/io/OutputStreamWrapper.java:173-180 | the intended copy loop appends `content[off..off + len]` to the buffered bytes |
| OutputStreamWrapper.WriteBytes | src/com/lm/plugin/idea/nexus/utils/io/OutputStreamWrapper.java:172-184 | with the copy going to `limit`: for `len >= 0` an out-of-range slice is refused, otherwise exactly `content[off..off + len]` is appended and then committed; a negative `len` behaves as `NegativeLength` states |
| OutputStreamWrapper.NegativeLength | src/com/lm/plugin/idea/nexus/utils/io/OutputStreamWrapper.java:172-184 | a negative `len` whose sum with `off` wraps fails on the copy; otherwise, with no buffer, the commit throws on the null head, and with one nothing is added but `size` ends up `-len` short of the buffered bytes |
| OutputStreamWrapper.FlushCount | src/com/lm/plugin/idea/nexus/utils/io/OutputStreamWrapper.java:193-199 | `flush` hands over exactly `size` bytes (none when `size` is not positive), without changing what was written |
| OutputStreamWrapper.NegativeLengthStrandsBytes | src/com/lm/plugin/idea/nexus/utils/io/OutputStreamWrapper.java:181 | on a writer holding bytes, a negative `len` succeeds, and a later `flush` does not deliver everything written |
| OutputStreamWrapper.WriteString | src/com/lm/plugin/idea/nexus/utils/io/OutputStreamWrapper.java:148-161 | the corrected `writeString`, over the corrected `writeBytes`: appends the encoded bytes of the string |
| OutputStreamWrapper.CopyRoundAsWritten | src/com/lm/plugin/idea/nexus/utils/io/OutputStreamWrapper.java:175-179 | one round of the loop as written adds as many bytes as it copies, and appends them when the tail's cursors meet |
| OutputStreamWrapper.CopyChunksAsWritten | src/com/lm/plugin/idea/nexus/utils/io/OutputStreamWrapper.java:173-180 | the loop as written adds `len` bytes, which are the given ones when the tail starts with its cursors together |
| OutputStreamWrapper.WriteBytesAsWritten | src/com/lm/plugin/idea/nexus/utils/io/OutputStreamWrapper.java:172-184 | as written, the slice checks and the length are right, but the content is only right when the tail's cursors meet |
| OutputStreamWrapper.WriteStringAsWritten | src/com/lm/plugin/idea/nexus/utils/io/OutputStreamWrapper.java:148-150 | `writeString` as written, through `writeBytes` as written: the length is right, the bytes only when the tail's cursors meet |
| OutputStreamWrapper.WriteStringAsWrittenOverwrites | src/com/lm/plugin/idea/nexus/utils/io/OutputStreamWrapper.java:149 | `writeByte(x)` then `writeString` of one byte `y != x` does not emit `x, y` as written; the corrected `WriteString` does |
| OutputStreamWrapper.OverwritesUnreadByte | src/com/lm/plugin/idea/nexus/utils/io/OutputStreamWrapper.java:177 | with an unread byte pending in the tail, a one-byte `writeBytes` lands on top of it |
| OutputStreamWrapper.WriteBytesAsWrittenOverwrites | src/com/lm/plugin/idea/nexus/utils/io/OutputStreamWrapper.java:177 | `writeByte(x)` then `writeBytes([y])` with `y != x` does not emit `x, y` as written; the corrected copy does |
| ConvertUtils.Short2BytesWeights | src/main/java/com/lm/utils/io/ConvertUtils.java:26-31 | `short2Bytes` puts the high byte first |
| ConvertUtils.Int2BytesWeights | src/main/java/com/lm/utils/io/ConvertUtils.java:50-57 | `int2Bytes` puts the bytes most significant first |
| ConvertUtils.Long2BytesWeights | src/main/java/com/lm/utils/io/ConvertUtils.java:80-91 | `long2Bytes` puts the bytes most significant first |
| ConvertUtils.Short2BytesLEWeights | src/main/java/com/lm/utils/io/ConvertUtils.java:15-20 | `short2BytesLE` puts the low byte first |
| ConvertUtils.Int2BytesLEWeights | src/main/java/com/lm/utils/io/ConvertUtils.java:37-44 | `int2BytesLE` puts the bytes least significant first |
| ConvertUtils.Long2BytesLEWeights | src/main/java/com/lm/utils/io/ConvertUtils.java:63-74 | `long2BytesLE` puts the bytes least significant first |
| ConvertUtils.Short2BytesLEIsReverse | src/main/java/com/lm/utils/io/ConvertUtils.java:15-31 | the little-endian array is the big-endian one reversed |
| ConvertUtils.Int2BytesLEIsReverse | src/main/java/com/lm/utils/io/ConvertUtils.java:37-57 | the little-endian array is the big-endian one reversed |
| ConvertUtils.Long2BytesLEIsReverse | src/main/java/com/lm/utils/io/ConvertUtils.java:63-91 | the little-endian array is the big-endian one reversed |
| ConvertUtils.Bytes2Short | src/com/lm/utils/io/InputStreamWrapper.java:72 | the reader's assembly of two bytes is the value whose big-endian encoding they are |
| ConvertUtils.Bytes2Int | src/com/lm/utils/io/InputStreamWrapper.java:108-111 | the reader's assembly of four bytes is the value whose big-endian encoding they are |
| ConvertUtils.Bytes2Long | src/com/lm/utils/io/InputStreamWrapper.java:144-151 | the reader's assembly of eight bytes is the value whose big-endian encoding they are |
| ConvertUtils.JoinHalves | src/com/lm/utils/io/InputStreamWrapper.java:141 | joining two `int`s into a `long` gives the value whose encoding is theirs concatenated |
| ConvertUtils.ShortRoundTrip | src/main/java/com/lm/utils/io/ConvertUtils.java:26-31 | decoding the encoding of a `short` gives it back |
| ConvertUtils.IntRoundTrip | src/main/java/com/lm/utils/io/ConvertUtils.java:50-57 | decoding the encoding of an `int` gives it back |
| ConvertUtils.LongRoundTrip | src/main/java/com/lm/utils/io/ConvertUtils.java:80-91 | decoding the encoding of a `long` gives it back |
| ConvertUtils.ReverseBytesShort | src/main/java/com/lm/utils/io/ConvertUtils.java:97-99 | the big-endian bytes of the result are the little-endian bytes of the argument |
| ConvertUtils.ReverseBytesInt | src/main/java/com/lm/utils/io/ConvertUtils.java:105-110 | the big-endian bytes of the result are the little-endian bytes of the argument |
| ConvertUtils.ReverseBytesLong | src/main/java/com/lm/utils/io/ConvertUtils.java:116-125 | the big-endian bytes of the result are the little-endian bytes of the argument |
| ConvertUtils.ReverseBytesShortInvolution | src/main/java/com/lm/utils/io/ConvertUtils.java:97-99 | reversing twice gives the value back |
| ConvertUtils.ReverseBytesIntInvolution | src/main/java/com/lm/utils/io/ConvertUtils.java:105-110 | reversing twice gives the value back |
| ConvertUtils.ReverseBytesLongInvolution | src/main/java/com/lm/utils/io/ConvertUtils.java:116-125 | reversing twice gives the value back |
| Bytes.IntOf | src/com/lm/utils/io/InputStreamWrapper.java:305 | the `(int)` cast keeps a `long` in the `int` range, congruent to it modulo 2^32, and leaves `int` values alone |
| RoundTrip.EncodingDetermines | src/main/java/com/lm/utils/io/ConvertUtils.java:15-91 | two values of one type with the same bytes are equal |
| RoundTrip.WriteAll | src/com/lm/plugin/idea/nexus/utils/io/OutputStreamWrapper.java:34-161 | the typed writes and the corrected `writeString`, one after another, emit the encodings of the values in order |
| RoundTrip.ReadLikeYields | src/com/lm/utils/io/InputStreamWrapper.java:34-187 | each typed read succeeds exactly when the stream holds a value of its type, and returns the value its first bytes encode |
| RoundTrip.ReadsBack | src/com/lm/utils/io/InputStreamWrapper.java:34-187 | a stream that starts with the encodings of some values is read back as exactly those values, leaving what followed them |
| RoundTrip.WriteThenRead | src/com/lm/plugin/idea/nexus/utils/io/OutputStreamWrapper.java:193-199 | with the corrected `writeString`, values written and flushed are read back in order from the output, in any chunking, and nothing is left |
| RoundTrip.WriteAsWritten | src/com/lm/plugin/idea/nexus/utils/io/OutputStreamWrapper.java:34-150 | the write calls as written always emit as many bytes as the encoding has, and the encoding itself for a typed value |
| RoundTrip.WriteAllAsWritten | src/com/lm/plugin/idea/nexus/utils/io/OutputStreamWrapper.java:34-150 | the write calls as written, one after another, emit as many bytes as the encodings have |
| RoundTrip.TypedWritesAsWritten | src/com/lm/plugin/idea/nexus/utils/io/OutputStreamWrapper.java:34-127 | without byte arrays the write calls as written are the corrected ones |
| RoundTrip.WriteThenReadAsWritten | src/com/lm/plugin/idea/nexus/utils/io/OutputStreamWrapper.java:34-199 | typed values written as written and flushed are read back in order, in any chunking |
| RoundTrip.ArrayAfterByteAsWritten | src/com/lm/plugin/idea/nexus/utils/io/OutputStreamWrapper.java:148-184 | as written, `writeByte(x)` then `writeString` of one byte `y != x`, flushed, does not hand the output the encodings of those values |
| Utils.Trim | src/com/lm/utils/Utils.java:8 | Java's `trim`: empty exactly for blank strings; otherwise it starts and ends with a character above U+0020 |
| Utils.TrimIsInfix | src/com/lm/utils/Utils.java:8 | `trim` removes only characters at most U+0020, and only at the two ends |
| Utils.TrimIdempotent | src/com/lm/utils/Utils.java:8 | trimming twice is trimming once |
| Utils.CheckParams | src/com/lm/utils/Utils.java:7-12 | accepts exactly the present parameters with a character above U+0020, returning true; otherwise it throws with the given message |
| Utils.CheckAll | src/com/lm/utils/Utils.java:23-30 | the checks in order: the values when all pass, otherwise the failure of the first parameter that does not |
| Utils.BuildUploadScript | src/com/lm/utils/Utils.java:22-82 | fails with `<name> == null` for the first absent or blank parameter; otherwise the header, the eight field lines in order, and the fixed template |
| Utils.ScriptLayout | src/com/lm/utils/Utils.java:32-40 | the `k`-th field line of the script names the `k`-th parameter and quotes its value |
| Utils.ScriptEnds | src/com/lm/utils/Utils.java:31-81 | every script starts with `def nexus_maven = [:]` and ends with the template's closing brace |

## Left out

- Charsets: `readString`, `readLine` and `readAll` return bytes, and `writeString` takes bytes. The charset decoding and encoding is left out. The same goes for `readUTF8Line`, `readAllUTF8` and `writeUTF8`, which only fix the charset name.
- `close` and `IOUtils.closeIO`, and every other `IOException` of the underlying streams: the input either delivers bytes or reports end of input, and the output always accepts a write.
- `synchronized` in `IOBufferPool`: the model is sequential.
- The Swing and IntelliJ dialogs and `Utils.showMessageDialog` / `showErrorDialog`: user interface only.
- The second copy of `IOBuffer`, `IOBufferPool` and `ConvertUtils` under the plugin package is treated as identical to the one modelled.
- `indexOf(content)` is `IndexOf(r, b, 0)`, and is not modelled as a separate member.
- The `long` counters (`size`, `byteCount`) are unbounded integers. Overflow past 2^63 cannot happen with in-memory buffers and is not modelled.
- How many bytes `inputStream.read` returns is the `script` of an `InputSource.Input`: any chunking of at least one byte is possible, and the model quantifies over it.
- IOBuffer.PushKeepsRing: the ring invariant is proved on an arena of link records, separately from the byte contents. The wrappers' rings are sequences of segments, which the bridge lemmas `PushAfterTailAppends` and `PopHeadDropsFirst` connect to.
- InputStreamWrapper.ValueOfAsWritten: excludes one call, `valueOf(0)` with nothing buffered and a non-null head. Such a head is reachable: `read` creates it with `getBuffer(1)` (line 406) and then returns -1 at the end of the input (line 409). On it the loop of lines 303-308 finds `canReadCount == 0` in every buffer and never returns.
- InputStreamWrapper.IndexOfAsWritten: for a start beyond `size` it states only that the result holds the byte. The exact result is given by `IndexOfAsWrittenStartsAtSize`.
- InputStreamWrapper.IndexOf: the corrected search takes only starts of 0 or more. The source leaves open whether a negative start should be refused or read as 0, so the model makes neither choice.
- RoundTrip.ReadAllLike: its contract only states validity and length. What it reads is stated by `ReadsBack` and `WriteThenRead`.
- InputStreamWrapper.ReadString: a `readCount` below `Integer.MIN_VALUE` is not modelled as Java runs it, and the contract says nothing about it. The `(int)` cast at line 246 wraps such a count to some `c`. When `0 <= c <= 2048 - pos`, the `String` constructor accepts it and Java returns `c` bytes of the head's array from `pos`, which may run past `limit` into stale bytes. Line 247 is `pos = (int) (pos + readCount)`, so `pos` moves forward by `c`, possibly past `limit`. Line 248 raises `size` by `-readCount`, more than 2^31. For example, `readCount = -2^32 + 1` returns one byte, moves `pos` by 1 and adds `2^32 - 1` to `size`. That state breaks the segment invariant and the `size` bookkeeping, and the model returns `IndexOutOfBounds` there instead.
- OutputStreamWrapper.WriteBytes: `off + len` is a Java `int` (line 173). Above `Integer.MAX_VALUE` it wraps negative, the copy loop is skipped, and `size += len` counts bytes that were never copied. The model refuses such a range with `IndexOutOfBounds`, like any range past the array's end. The wrap below `Integer.MIN_VALUE` is modelled.
- OutputStreamWrapper.WriteBytesAsWritten: the same `int` overflow of `off + len` above `Integer.MAX_VALUE` is not modelled, for the same reason.
- RoundTrip.WriteAll: byte arrays go through the corrected `WriteString`. As written, `writeString` inherits the copy at the read cursor (line 177). The round trip for the code as written is `WriteThenReadAsWritten`, for typed values only.
- RoundTrip.WriteThenRead: holds with the corrected `writeString`. `ArrayAfterByteAsWritten` shows an array written after a typed value breaking the round trip as written.
- State after a failure: an `Err` result carries no wrapper, so the partial effects of a failing call are not modelled. For example, a `writeBytes` whose range runs past the array's end has already copied whole rounds and advanced `limit` before `arraycopy` throws (lines 174-179). A caller cannot continue from an `Err`.
- OutputStreamWrapper.CopyChunksAsWritten: when the tail's cursors do not meet, it states the length added but not the contents. The discrepancy is exhibited by `WriteBytesAsWrittenOverwrites`.

## Findings

| source | as written | input that shows it | evidently intended | confidence | as-written member | corrected member |
|---|---|---|---|---|---|---|
| src/com/lm/utils/io/InputStreamWrapper.java:299 | `valueOf` throws only for `index > size`, so `index == size` walks past the last buffered byte, wraps round the ring and returns the head byte | any reader with buffered bytes, `valueOf(size)` | `index >= size` throws `ArrayIndexOutOfBoundsException` | not executed | InputStreamWrapper.ValueOfAtSizeWraps | InputStreamWrapper.ValueOf |
| src/com/lm/utils/io/InputStreamWrapper.java:333 | after a miss, `indexOf` continues from `startIndex = size` even when the start was beyond `size`, so it can return a position before the start | input `[b]`, `indexOf(b, 1)` returns 0 | continue from `max(startIndex, size)`, giving -1 | not executed | InputStreamWrapper.IndexOfAsWrittenGoesBack | InputStreamWrapper.IndexOf |
| src/com/lm/utils/io/InputStreamWrapper.java:359 | `indexOf` passes a negative `startIndex` to `findInBuffer` unchecked, which scans the head from `pos + startIndex` over bytes already consumed and returns their negative positions | a reader whose head has consumed at least two bytes, the first of those two being `b`: `indexOf(b, -2)` returns -2 | a start is a position of the stream, at least 0, and the answer is -1 or a position of the stream at or after it | not executed | InputStreamWrapper.IndexOfBeforeStream | InputStreamWrapper.IndexOf |
| src/com/lm/utils/io/InputStreamWrapper.java:332 | a consumed byte found at position -1 is indistinguishable from a miss, so `indexOf` searches on from `size` and skips every buffered byte | a reader whose head has just consumed `b`: `indexOf(b, -1)` returns what a search from `size` returns | never answer a position before the stream; search the buffered bytes | not executed | InputStreamWrapper.IndexOfHitAtMinusOne | InputStreamWrapper.IndexOf |
| src/com/lm/plugin/idea/nexus/utils/io/OutputStreamWrapper.java:149 | `writeString` passes the whole array to `writeBytes`, so it inherits the copy at the read cursor of line 177 | `writeByte(x)` then `writeString` of one byte `y != x`: emits `y` in place of `x` | append the array, as the corrected `writeBytes` does | not executed | OutputStreamWrapper.WriteStringAsWrittenOverwrites | OutputStreamWrapper.WriteString |
| src/com/lm/plugin/idea/nexus/utils/io/OutputStreamWrapper.java:177 | `writeBytes` copies into the tail at `buffer.pos`, the read cursor, instead of `buffer.limit`, overwriting bytes not yet written out | `writeByte(x)` then `writeBytes([y])` with `y != x`: emits `y` in place of `x` | copy at `buffer.limit`, appending the bytes | not executed | OutputStreamWrapper.WriteBytesAsWrittenOverwrites | OutputStreamWrapper.WriteBytes |
