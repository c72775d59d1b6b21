/**
 * What `OutputStreamWrapper` writes, `InputStreamWrapper` reads back: a
 * sequence of typed values written, flushed and handed to a reader, in
 * whatever chunks the input delivers, comes back value by value.
 */
module RoundTrip {
  import opened Bytes
  import opened Wrappers
  import opened ConvertUtils
  import opened InputSource
  import R = InputStreamWrapper
  import W = OutputStreamWrapper

  /** One value of the wire format: its type and the write and read calls that go with it. */
  datatype Value =
    | Byte(b: byte)            // writeByte / readByte
    | Short(s: bv16)           // writeShort / readShort
    | ShortLE(s: bv16)         // writeShortLE / readShortLE
    | Int(i: bv32)             // writeInt / readInt
    | IntLE(i: bv32)           // writeIntLE / readIntLE
    | Long(l: bv64)            // writeLong / readLong
    | LongLE(l: bv64)          // writeLongLE / readLongLE
    | Raw(bytes: seq<byte>)  // writeString after encoding / readBytes of the same length

  /** A value the reader can ask for: `readBytes` takes between 1 and `Integer.MAX_VALUE` bytes. */
  predicate Readable(v: Value) {
    v.Raw? ==> 1 <= |v.bytes| <= INT_MAX
  }

  /** The bytes a value takes on the wire. */
  function Encoding(v: Value): seq<byte> {
    if v.Raw? then v.bytes
    else if LittleEndian(v) then LittleEncoding(v)
    else BigEncoding(v)
  }

  /** The big-endian encodings, from `ConvertUtils`. */
  function BigEncoding(v: Value): seq<byte>
    requires !v.Raw? && !LittleEndian(v)
  {
    match v
    case Byte(b) => [b]
    case Short(s) => Short2Bytes(s)
    case Int(i) => Int2Bytes(i)
    case Long(l) => Long2Bytes(l)
  }

  /** The little-endian encodings, from `ConvertUtils`. */
  function LittleEncoding(v: Value): seq<byte>
    requires LittleEndian(v)
  {
    match v
    case ShortLE(s) => Short2BytesLE(s)
    case IntLE(i) => Int2BytesLE(i)
    case LongLE(l) => Long2BytesLE(l)
  }

  /** Two appends in a row append the concatenation. */
  lemma AppendsChain(w: W.Writer, w1: W.Writer, w2: W.Writer, a: seq<byte>, b: seq<byte>)
    requires Appends(w, w1, a) && Appends(w1, w2, b)
    ensures Appends(w, w2, a + b)
  {
    assert W.Emitted(w2) == (W.Emitted(w) + a) + b;
  }

  /** A value written and read with the little-endian calls. */
  predicate LittleEndian(v: Value) {
    v.ShortLE? || v.IntLE? || v.LongLE?
  }

  /** How many bytes a value of the type of `v` takes. */
  function Width(v: Value): nat {
    match v
    case Byte(_) => 1
    case Short(_) => 2
    case ShortLE(_) => 2
    case Int(_) => 4
    case IntLE(_) => 4
    case Long(_) => 8
    case LongLE(_) => 8
    case Raw(bytes) => |bytes|
  }

  /** A value takes as many bytes as its type says, and so does every value of the same type. */
  lemma EncodingWidth(u: Value, v: Value)
    requires SameKind(u, v)
    ensures |Encoding(u)| == Width(u) == Width(v)
  {
    EncodingCases(u);
  }

  /** `Encoding`, constructor by constructor. */
  lemma EncodingCases(v: Value)
    ensures v.Byte? ==> Encoding(v) == [v.b]
    ensures v.Short? ==> Encoding(v) == Short2Bytes(v.s)
    ensures v.ShortLE? ==> Encoding(v) == Short2BytesLE(v.s)
    ensures v.Int? ==> Encoding(v) == Int2Bytes(v.i)
    ensures v.IntLE? ==> Encoding(v) == Int2BytesLE(v.i)
    ensures v.Long? ==> Encoding(v) == Long2Bytes(v.l)
    ensures v.LongLE? ==> Encoding(v) == Long2BytesLE(v.l)
    ensures v.Raw? ==> Encoding(v) == v.bytes
  {
  }

  /** The bytes of a sequence of values, one after the other. */
  function Encodings(vs: seq<Value>): seq<byte> {
    if vs == [] then [] else Encoding(vs[0]) + Encodings(vs[1..])
  }

  /** Two values of the same type. */
  predicate SameKind(u: Value, v: Value) {
    match (u, v)
    case (Byte(_), Byte(_)) => true
    case (Short(_), Short(_)) => true
    case (ShortLE(_), ShortLE(_)) => true
    case (Int(_), Int(_)) => true
    case (IntLE(_), IntLE(_)) => true
    case (Long(_), Long(_)) => true
    case (LongLE(_), LongLE(_)) => true
    case (Raw(a), Raw(b)) => |a| == |b|
    case _ => false
  }

  /** A value's bytes determine it among the values of its type. */
  lemma EncodingDetermines(u: Value, v: Value)
    requires SameKind(u, v) && Encoding(u) == Encoding(v)
    ensures u == v
  {
    match (u, v)
    case (Short(a), Short(b)) => ShortRoundTrip(a); ShortRoundTrip(b);
    case (ShortLE(a), ShortLE(b)) =>
      Short2BytesLEIsReverse(a); Short2BytesLEIsReverse(b);
      ReverseReverse(Short2Bytes(a)); ReverseReverse(Short2Bytes(b));
      ShortRoundTrip(a); ShortRoundTrip(b);
    case (Int(a), Int(b)) => IntRoundTrip(a); IntRoundTrip(b);
    case (IntLE(a), IntLE(b)) =>
      Int2BytesLEIsReverse(a); Int2BytesLEIsReverse(b);
      ReverseReverse(Int2Bytes(a)); ReverseReverse(Int2Bytes(b));
      IntRoundTrip(a); IntRoundTrip(b);
    case (Long(a), Long(b)) => LongRoundTrip(a); LongRoundTrip(b);
    case (LongLE(a), LongLE(b)) =>
      Long2BytesLEIsReverse(a); Long2BytesLEIsReverse(b);
      ReverseReverse(Long2Bytes(a)); ReverseReverse(Long2Bytes(b));
      LongRoundTrip(a); LongRoundTrip(b);
    case _ =>
  }

  /** `res` is a valid writer whose stream is that of `w` followed by `bytes`. */
  predicate Appends(w: W.Writer, res: W.Writer, bytes: seq<byte>) {
    w.Valid() && res.Valid() && W.Emitted(res) == W.Emitted(w) + bytes
  }

  /**
   * A read of a value of the type of `like` from `r`: it succeeds exactly
   * when the stream holds enough bytes, and then returns a value of that
   * type whose bytes are the first ones of the stream, which it consumes.
   */
  predicate Yields(r: R.Reader, like: Value, res: Result<R.Read<Value>, IoError>) {
    && r.Valid()
    && (res.Ok? <==> Width(like) <= |R.Stream(r)|)
    && (res.Ok? ==>
          && res.value.rest.Valid() && SameKind(res.value.value, like)
          && Encoding(res.value.value) == R.Stream(r)[..Width(like)]
          && R.Stream(res.value.rest) == R.Stream(r)[Width(like)..])
  }

  /** The write call for a value. */
  function Write(w: W.Writer, v: Value): (res: W.Writer)
    requires w.Valid()
    ensures Appends(w, res, Encoding(v))
  {
    if v.Raw? then
      W.WriteString(w, v.bytes)
    else if LittleEndian(v) then
      WriteLittle(w, v)
    else
      WriteBig(w, v)
  }

  /** `writeByte`, `writeShort`, `writeInt`, `writeLong`. */
  function WriteBig(w: W.Writer, v: Value): (res: W.Writer)
    requires w.Valid() && !v.Raw? && !LittleEndian(v)
    ensures Appends(w, res, Encoding(v))
  {
    match v
    case Byte(b) => W.WriteByte(w, b)
    case Short(s) => W.WriteShort(w, s)
    case Int(i) => W.WriteInt(w, i)
    case Long(l) => W.WriteLong(w, l)
  }

  /** `writeShortLE`, `writeIntLE`, `writeLongLE`. */
  function WriteLittle(w: W.Writer, v: Value): (res: W.Writer)
    requires w.Valid() && LittleEndian(v)
    ensures Appends(w, res, Encoding(v))
  {
    match v
    case ShortLE(s) => W.WriteShortLE(w, s)
    case IntLE(i) => W.WriteIntLE(w, i)
    case LongLE(l) => W.WriteLongLE(w, l)
  }

  /** The write calls for a sequence of values, in order. */
  function WriteAll(w: W.Writer, vs: seq<Value>): (res: W.Writer)
    requires w.Valid()
    ensures res.Valid() && W.Emitted(res) == W.Emitted(w) + Encodings(vs)
    decreases |vs|
  {
    if vs == [] then
      w
    else
      var w1 := Write(w, vs[0]);
      var res := WriteAll(w1, vs[1..]);
      AppendsChain(w, w1, res, Encoding(vs[0]), Encodings(vs[1..]));
      res
  }

  /**
   * The write call for a value with the wrapper as written: `writeString`
   * goes through `writeBytes` as written, the typed writes are `Write`'s.
   * The length always comes out right; the bytes do for a typed value, and
   * for an array only when the tail's cursors meet.
   */
  function WriteAsWritten(w: W.Writer, v: Value): (res: W.Writer)
    requires w.Valid()
    ensures res.Valid() && |W.Emitted(res)| == |W.Emitted(w)| + |Encoding(v)|
    ensures !v.Raw? || W.CursorsMeet(w.queue) ==> Appends(w, res, Encoding(v))
  {
    if v.Raw? then W.WriteStringAsWritten(w, v.bytes) else Write(w, v)
  }

  /** The write calls as written for a sequence of values, in order. */
  function WriteAllAsWritten(w: W.Writer, vs: seq<Value>): (res: W.Writer)
    requires w.Valid()
    ensures res.Valid() && |W.Emitted(res)| == |W.Emitted(w)| + |Encodings(vs)|
    decreases |vs|
  {
    if vs == [] then w else WriteAllAsWritten(WriteAsWritten(w, vs[0]), vs[1..])
  }

  /** No value of `vs` is a byte array. */
  predicate Typed(vs: seq<Value>) {
    forall i | 0 <= i < |vs| :: !vs[i].Raw?
  }

  /** Without byte arrays, the write calls as written are the corrected ones. */
  lemma {:induction false} TypedWritesAsWritten(w: W.Writer, vs: seq<Value>)
    requires w.Valid() && Typed(vs)
    ensures WriteAllAsWritten(w, vs) == WriteAll(w, vs)
    decreases |vs|
  {
    if vs != [] {
      assert !vs[0].Raw?;
      assert Typed(vs[1..]) by {
        forall i | 0 <= i < |vs[1..]| ensures !vs[1..][i].Raw? {
          assert vs[1..][i] == vs[i + 1];
        }
      }
      TypedWritesAsWritten(Write(w, vs[0]), vs[1..]);
    }
  }

  /**
   * The round trip for the wrapper as written: typed values written to a
   * fresh writer and flushed are read back in order, in any chunking.
   */
  lemma WriteThenReadAsWritten(vs: seq<Value>, script: seq<nat>)
    requires AllReadable(vs) && Typed(vs)
    ensures ReadsAs(R.Open(Input(W.Flush(WriteAllAsWritten(W.Open(), vs)).out, script)), vs, [])
  {
    TypedWritesAsWritten(W.Open(), vs);
    WriteThenRead(vs, script);
  }

  /**
   * A byte array after a typed value breaks the round trip as written:
   * `writeByte(x)` then `writeString` of one different byte `y` hands the
   * output something other than `x, y`.
   */
  lemma ArrayAfterByteAsWritten(x: byte, y: byte)
    requires x != y
    ensures W.Flush(WriteAllAsWritten(W.Open(), [Byte(x), Raw([y])])).out != Encodings([Byte(x), Raw([y])])
  {
    var w0 := W.Open();
    ByteThenArrayAsWritten(w0, x, y);
    W.WriteStringAsWrittenOverwrites(w0, x, y);
    ByteThenArrayEncodings(x, y);
  }

  /** Writing a byte and then a byte array, as written, is `writeByte` followed by `writeString` as written. */
  lemma ByteThenArrayAsWritten(w: W.Writer, x: byte, y: byte)
    requires w.Valid()
    ensures WriteAllAsWritten(w, [Byte(x), Raw([y])]) == W.WriteStringAsWritten(W.WriteByte(w, x), [y])
  {
    var vs := [Byte(x), Raw([y])];
    assert vs[0] == Byte(x) && vs[1..] == [Raw([y])];
    ByteAsWritten(w, x);
    LastAsWritten(W.WriteByte(w, x), Raw([y]));
  }

  /** A byte goes through `writeByte`. */
  lemma ByteAsWritten(w: W.Writer, x: byte)
    requires w.Valid()
    ensures WriteAsWritten(w, Byte(x)) == W.WriteByte(w, x)
  {
    assert !LittleEndian(Byte(x));
  }

  /** The write calls for a single value are that value's write call. */
  lemma LastAsWritten(w: W.Writer, v: Value)
    requires w.Valid()
    ensures WriteAllAsWritten(w, [v]) == WriteAsWritten(w, v)
  {
    assert [v][1..] == [];
  }

  /** A byte and a one-byte array encode as those two bytes. */
  lemma ByteThenArrayEncodings(x: byte, y: byte)
    ensures Encodings([Byte(x), Raw([y])]) == [x, y]
  {
    var vs := [Byte(x), Raw([y])];
    assert vs[1..] == [Raw([y])] && vs[1..][1..] == [];
    assert Encoding(Byte(x)) == [x] by { assert !LittleEndian(Byte(x)); }
    assert Encodings([Raw([y])]) == [y] + [];
  }

  /** The read call for a value of the same type as `like`. */
  function ReadLike(r: R.Reader, like: Value): (res: Result<R.Read<Value>, IoError>)
    requires r.Valid() && Readable(like)
    ensures res.Ok? ==> res.value.rest.Valid()
  {
    match like
    case Byte(_) => var x :- R.ReadByte(r); Ok(R.Read(Byte(x.value), x.rest))
    case Short(_) => var x :- R.ReadShort(r); Ok(R.Read(Short(x.value), x.rest))
    case ShortLE(_) => var x :- R.ReadShortLE(r); Ok(R.Read(ShortLE(x.value), x.rest))
    case Int(_) => var x :- R.ReadInt(r); Ok(R.Read(Int(x.value), x.rest))
    case IntLE(_) => var x :- R.ReadIntLE(r); Ok(R.Read(IntLE(x.value), x.rest))
    case Long(_) => var x :- R.ReadLong(r); Ok(R.Read(Long(x.value), x.rest))
    case LongLE(_) => var x :- R.ReadLongLE(r); Ok(R.Read(LongLE(x.value), x.rest))
    case Raw(bytes) => var x :- R.ReadBytes(r, |bytes|); Ok(R.Read(Raw(x.value), x.rest))
  }

  /**
   * Each read call succeeds exactly when the stream holds a value of its
   * type, returns the value those bytes encode, and consumes just them.
   */
  lemma ReadLikeYields(r: R.Reader, like: Value)
    requires r.Valid() && Readable(like)
    ensures Yields(r, like, ReadLike(r, like))
  {
    match like
    case Byte(_) => ByteYields(r, like);
    case Short(_) => ShortYields(r, like);
    case ShortLE(_) => ShortLEYields(r, like);
    case Int(_) => IntYields(r, like);
    case IntLE(_) => IntLEYields(r, like);
    case Long(_) => LongYields(r, like);
    case LongLE(_) => LongLEYields(r, like);
    case Raw(_) => RawYields(r, like);
  }

  /** `readByte` takes the first byte of the stream. */
  lemma ByteYields(r: R.Reader, like: Value)
    requires r.Valid() && like.Byte?
    ensures Yields(r, like, ReadLike(r, like))
  {
    var res := ReadLike(r, like);
    if res.Ok? {
      EncodingCases(res.value.value);
      assert R.Stream(r)[..1] == [R.Stream(r)[0]];
      YieldsOk(r, like, res.value.value, res.value.rest);
    }
  }

  /** `readShort` takes two bytes, high byte first. */
  lemma ShortYields(r: R.Reader, like: Value)
    requires r.Valid() && like.Short?
    ensures Yields(r, like, ReadLike(r, like))
  {
    var res := ReadLike(r, like);
    if res.Ok? {
      EncodingCases(res.value.value);
      YieldsOk(r, like, res.value.value, res.value.rest);
    }
  }

  /** `readShortLE` takes two bytes, low byte first. */
  lemma ShortLEYields(r: R.Reader, like: Value)
    requires r.Valid() && like.ShortLE?
    ensures Yields(r, like, ReadLike(r, like))
  {
    var res := ReadLike(r, like);
    if res.Ok? {
      EncodingCases(res.value.value);
      YieldsOk(r, like, res.value.value, res.value.rest);
    }
  }

  /** `readInt` takes four bytes, high byte first. */
  lemma IntYields(r: R.Reader, like: Value)
    requires r.Valid() && like.Int?
    ensures Yields(r, like, ReadLike(r, like))
  {
    var res := ReadLike(r, like);
    if res.Ok? {
      EncodingCases(res.value.value);
      YieldsOk(r, like, res.value.value, res.value.rest);
    }
  }

  /** `readIntLE` takes four bytes, low byte first. */
  lemma IntLEYields(r: R.Reader, like: Value)
    requires r.Valid() && like.IntLE?
    ensures Yields(r, like, ReadLike(r, like))
  {
    var res := ReadLike(r, like);
    if res.Ok? {
      EncodingCases(res.value.value);
      YieldsOk(r, like, res.value.value, res.value.rest);
    }
  }

  /** `readLong` takes eight bytes, high byte first. */
  lemma LongYields(r: R.Reader, like: Value)
    requires r.Valid() && like.Long?
    ensures Yields(r, like, ReadLike(r, like))
  {
    var res := ReadLike(r, like);
    if res.Ok? {
      EncodingCases(res.value.value);
      YieldsOk(r, like, res.value.value, res.value.rest);
    }
  }

  /** `readLongLE` takes eight bytes, low byte first. */
  lemma LongLEYields(r: R.Reader, like: Value)
    requires r.Valid() && like.LongLE?
    ensures Yields(r, like, ReadLike(r, like))
  {
    var res := ReadLike(r, like);
    if res.Ok? {
      EncodingCases(res.value.value);
      YieldsOk(r, like, res.value.value, res.value.rest);
    }
  }

  /** `readBytes` takes as many bytes as it is asked for. */
  lemma RawYields(r: R.Reader, like: Value)
    requires r.Valid() && like.Raw? && Readable(like)
    ensures Yields(r, like, ReadLike(r, like))
  {
    var res := ReadLike(r, like);
    if res.Ok? {
      EncodingCases(res.value.value);
      YieldsOk(r, like, res.value.value, res.value.rest);
    }
  }

  /** A successful read call meets `Yields` when it took the first `Width(like)` bytes as a value of that type. */
  lemma YieldsOk(r: R.Reader, like: Value, v: Value, rest: R.Reader)
    requires r.Valid() && rest.Valid() && Width(like) <= |R.Stream(r)| && SameKind(v, like)
    requires Encoding(v) == R.Stream(r)[..Width(like)] && R.Stream(rest) == R.Stream(r)[Width(like)..]
    ensures Yields(r, like, Ok(R.Read(v, rest)))
  {
  }

  /** The read calls for values of the types of `likes`, in order; the first failure stops them. */
  function ReadAllLike(r: R.Reader, likes: seq<Value>): (res: Result<R.Read<seq<Value>>, IoError>)
    requires r.Valid() && AllReadable(likes)
    ensures res.Ok? ==> res.value.rest.Valid() && |res.value.value| == |likes|
    decreases |likes|
  {
    if likes == [] then
      Ok(R.Read([], r))
    else
      var x :- ReadLike(r, likes[0]);
      var xs :- ReadAllLike(x.rest, likes[1..]);
      Ok(R.Read([x.value] + xs.value, xs.rest))
  }

  /** Every value of `vs` can be asked for. */
  predicate AllReadable(vs: seq<Value>) {
    forall i | 0 <= i < |vs| :: Readable(vs[i])
  }

  /** Reading values of the types of `vs` from `r` gives back `vs` and leaves `tail`. */
  predicate ReadsAs(r: R.Reader, vs: seq<Value>, tail: seq<byte>) {
    && r.Valid() && AllReadable(vs)
    && var res := ReadAllLike(r, vs);
    && res.Ok? && res.value.value == vs && R.Stream(res.value.rest) == tail
  }

  /**
   * A reader whose stream starts with the encodings of `vs` reads `vs`
   * back, one value per call, and is left with what followed them.
   */
  lemma {:induction false} ReadsBack(r: R.Reader, vs: seq<Value>, tail: seq<byte>)
    requires r.Valid() && AllReadable(vs)
    requires R.Stream(r) == Encodings(vs) + tail
    ensures ReadsAs(r, vs, tail)
    decreases |vs|
  {
    if vs != [] {
      var x := ReadsFirst(r, vs, tail);
      ReadsBack(x.rest, vs[1..], tail);
      ReadsNext(r, vs, tail, x);
    }
  }

  /** The first value of `vs` is read back, and the reader is left with the encodings of the others. */
  lemma ReadsFirst(r: R.Reader, vs: seq<Value>, tail: seq<byte>) returns (x: R.Read<Value>)
    requires r.Valid() && AllReadable(vs) && vs != []
    requires R.Stream(r) == Encodings(vs) + tail
    ensures ReadLike(r, vs[0]) == Ok(x) && x.value == vs[0]
    ensures x.rest.Valid() && AllReadable(vs[1..]) && R.Stream(x.rest) == Encodings(vs[1..]) + tail
  {
    assert Readable(vs[0]);
    assert Encodings(vs) == Encoding(vs[0]) + Encodings(vs[1..]);
    AppendAssoc(Encoding(vs[0]), Encodings(vs[1..]), tail);
    x := ReadsValue(r, vs[0], Encodings(vs[1..]) + tail);
  }

  /** A reader whose stream starts with the encoding of `v` reads `v` back and is left with what followed. */
  lemma ReadsValue(r: R.Reader, v: Value, rest: seq<byte>) returns (x: R.Read<Value>)
    requires r.Valid() && Readable(v) && R.Stream(r) == Encoding(v) + rest
    ensures ReadLike(r, v) == Ok(x) && x.value == v
    ensures x.rest.Valid() && R.Stream(x.rest) == rest
  {
    EncodingWidth(v, v);
    SplitAt(Encoding(v), rest);
    ReadLikeYields(r, v);
    x := ReadLike(r, v).value;
    EncodingDetermines(x.value, v);
  }

  /** The first value read, followed by the others read from what is left, is all of `vs`. */
  lemma ReadsNext(r: R.Reader, vs: seq<Value>, tail: seq<byte>, x: R.Read<Value>)
    requires r.Valid() && AllReadable(vs) && vs != []
    requires ReadLike(r, vs[0]) == Ok(x) && x.value == vs[0] && ReadsAs(x.rest, vs[1..], tail)
    ensures ReadsAs(r, vs, tail)
  {
    var xs := ReadAllLike(x.rest, vs[1..]).value;
    ReadAllLikeStep(r, vs, x, xs);
    HeadTail(vs);
  }

  /** One step of the read loop: the first read, then the others from what it left. */
  lemma ReadAllLikeStep(r: R.Reader, likes: seq<Value>, x: R.Read<Value>, xs: R.Read<seq<Value>>)
    requires r.Valid() && AllReadable(likes) && likes != []
    requires ReadLike(r, likes[0]) == Ok(x) && x.rest.Valid()
    requires ReadAllLike(x.rest, likes[1..]) == Ok(xs)
    ensures ReadAllLike(r, likes) == Ok(R.Read([x.value] + xs.value, xs.rest))
  {
  }

  /**
   * Values written to a fresh `OutputStreamWrapper` and flushed are read
   * back in order by an `InputStreamWrapper` over the output, however its
   * input chunks the bytes, and nothing is left over.
   */
  lemma WriteThenRead(vs: seq<Value>, script: seq<nat>)
    requires AllReadable(vs)
    ensures ReadsAs(R.Open(Input(W.Flush(WriteAll(W.Open(), vs)).out, script)), vs, [])
  {
    var w := W.Open();
    FlushedEncodings(w, vs);
    ReadsEncodings(W.Flush(WriteAll(w, vs)).out, vs, script);
  }

  /** A writer that has emitted nothing, flushed after writing `vs`, has handed the output exactly the encodings of `vs`. */
  lemma FlushedEncodings(w: W.Writer, vs: seq<Value>)
    requires w.Valid() && W.Emitted(w) == []
    ensures W.Flush(WriteAll(w, vs)).out == Encodings(vs)
  {
    assert W.Emitted(w) + Encodings(vs) == Encodings(vs);
  }

  /** A reader over an input holding just the encodings of `vs` reads `vs` back and nothing is left. */
  lemma ReadsEncodings(out: seq<byte>, vs: seq<Value>, script: seq<nat>)
    requires AllReadable(vs) && out == Encodings(vs)
    ensures ReadsAs(R.Open(Input(out, script)), vs, [])
  {
    var r := R.Open(Input(out, script));
    assert R.Stream(r) == Encodings(vs) + [];
    ReadsBack(r, vs, []);
  }
}
