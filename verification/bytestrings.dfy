/**
 * The bytes codec, with an optional fixed size.
 *
 * As written, the encoder puts a varint32 length in front of the bytes only
 * when the size is fixed, while the decoder reads a varint32 length only when
 * the size is variable.  The model keeps both; the lemmas at the end show
 * what that does to a round trip.
 */
module ByteStrings {

  import opened Text
  import opened Errors
  import opened Values
  import opened Ints
  import opened Sink

  /** The constructor's check of a fixed size, `varint32_t.fromJSON(size)`: at most 2^31 - 1 in magnitude. */
  function CheckSize(size: Option<int>): (r: Result<Option<int>>)
    ensures r.Ok? <==> size.None? || Abs(size.value) <= 0x7FFF_FFFF
    ensures r.Ok? ==> r.value == size
  {
    MaxAbsValues();
    match size
    case None => Ok(None)
    case Some(n) =>
      var _ :- IntFromJson(VarInt32, Num(n));
      Ok(size)
  }

  /** `_toBytes`: the bytes of a Buffer or the UTF-8 bytes of a string, of the fixed size if there is one. */
  function ToBytes(size: Option<int>, v: Value): (r: Result<seq<byte>>)
    ensures r.Ok? <==> (v.Buf? || v.Str?) && (size.Some? ==> size.value == |Contents(v)|)
    ensures r.Ok? ==> r.value == Contents(v)
    ensures (v.Buf? || v.Str?) && size.Some? && size.value != |Contents(v)| ==> r == Err(Fail(InvalidSize))
  {
    var bytes :- match v
      case Buf(d) => Ok(d)
      case Str(s) => Ok(s)
      case _ => Err(Fail(NotOfType));
    if size.Some? && size.value != |bytes| then Err(Fail(InvalidSize)) else Ok(bytes)
  }

  /** `Buffer.from(value)` for a Buffer or a string. */
  function Contents(v: Value): seq<byte>
    requires v.Buf? || v.Str?
  {
    if v.Buf? then v.data else v.s
  }

  /**
   * `appendToByteBuffer`: the bytes, after a varint32 of the size when the
   * size is fixed.  Every check precedes the writes.
   */
  function BytesAppend(size: Option<int>, v: Value): (r: Result<seq<byte>>)
    ensures r.Ok? ==> ToBytes(size, v).Ok?
    ensures size.None? ==> r == ToBytes(size, v)
    ensures size.Some? && r.Ok? ==> r.value == Leb128(size.value) + ToBytes(size, v).value
    ensures size.Some? && ToBytes(size, v).Ok? && size.value <= 0x7FFF_FFFF ==> r.Ok?
  {
    var bytes :- ToBytes(size, v);
    match size
    case None => Ok(bytes)
    case Some(n) =>
      MaxAbsValues();
      var prefix :- IntAppend(VarInt32, Num(n));
      Ok(prefix + bytes)
  }

  /** `toJSON`: the lowercase hex of the bytes. */
  function BytesToJson(size: Option<int>, v: Value): (r: Result<Value>)
    ensures r.Ok? <==> ToBytes(size, v).Ok?
    ensures r.Ok? ==> r.value.Str? && |r.value.s| == 2 * |ToBytes(size, v).value|
    ensures r.Ok? ==> IsHex(r.value.s) && FromHex(r.value.s) == ToBytes(size, v).value
  {
    var bytes :- ToBytes(size, v);
    HexRoundTrip(bytes);
    Ok(Str(Hex(bytes)))
  }

  /**
   * `fromJSON`: a string of whole pairs of lowercase hex digits, read as
   * bytes, which must have the fixed size if there is one.
   */
  function BytesFromJson(size: Option<int>, j: Value): (r: Result<Value>)
    ensures r.Ok? <==> j.Str? && IsHex(j.s) && (size.Some? ==> size.value == |j.s| / 2)
    ensures j.Str? && !IsHex(j.s) ==> r == Err(Fail(InvalidFormat))
    ensures r.Ok? ==> r.value.Buf? && Hex(r.value.data) == j.s
  {
    if !j.Str? then Err(Fail(NotOfType))
    else if !IsHex(j.s) then Err(Fail(InvalidFormat))
    else
      var bytes := FromHex(j.s);
      HexOfFromHex(j.s);
      if size.Some? && size.value != |bytes| then Err(Fail(InvalidSize)) else Ok(Buf(bytes))
  }

  /** JSON written by `toJSON` is read back by `fromJSON` as the same bytes. */
  lemma BytesJsonRoundTrip(size: Option<int>, v: Value)
    requires ToBytes(size, v).Ok?
    ensures BytesFromJson(size, BytesToJson(size, v).value) == Ok(Buf(ToBytes(size, v).value))
  {
    var bytes := ToBytes(size, v).value;
    HexRoundTrip(bytes);
  }

  /**
   * `buffer.slice(start, end)`: a negative end counts back from the end of
   * the buffer, both ends are then clamped to it, and the result is empty
   * when they cross.
   */
  function Slice(buf: seq<byte>, start: nat, end: int): (r: seq<byte>)
    ensures start <= end <= |buf| ==> r == buf[start..end]
    ensures end < 0 && start <= |buf| + end ==> r == buf[start..|buf| + end]
    ensures |r| <= |buf|
  {
    var lo := if start < |buf| then start else |buf|;
    var e := if end < 0 then |buf| + end else end;
    var hi := if e < 0 then 0 else if e < |buf| then e else |buf|;
    if hi <= lo then [] else buf[lo..hi]
  }

  /**
   * `readFromBuffer`: the size is the fixed one or a varint32 read first
   * (failures prefixed "bytes"); then that many bytes, or "unexpected end of
   * buffer" when fewer remain.
   */
  function BytesRead(size: Option<int>, buf: seq<byte>, off: nat): (r: Result<(Value, nat)>)
    ensures r.Ok? ==> r.value.0.Buf? && r.value.1 == Start(size, buf, off) + |r.value.0.data|
    ensures r.Ok? ==> off <= r.value.1 && (off <= |buf| ==> r.value.1 <= |buf|)
    ensures r.Ok? ==> r.value.0.data == Slice(buf, Start(size, buf, off), r.value.1)
    ensures size.Some? ==> (r.Ok? <==> size.value == 0 || (0 < size.value && off + size.value <= |buf|))
    ensures size.Some? && r.Ok? ==> |r.value.0.data| == size.value
    ensures size.None? && r.Ok? ==> IntRead(VarInt32, buf, off).Ok? && |r.value.0.data| == IntRead(VarInt32, buf, off).value.0.n
  {
    var (n, start) :- match size
      case Some(n) => Ok((n, off))
      case None =>
        var (m, o) :- Prefixed(BytesSeg(None), IntRead(VarInt32, buf, off));
        Ok((m.n, o));
    var newOffset := start + n;
    var bytes := Slice(buf, start, newOffset);
    if |bytes| != n then Err(Fail(UnexpectedEndOfBuffer)) else Ok((Buf(bytes), newOffset))
  }

  /** Where the data starts: at the offset for a fixed size, after the varint32 length otherwise. */
  function Start(size: Option<int>, buf: seq<byte>, off: nat): nat {
    if size.Some? || IntRead(VarInt32, buf, off).Err? then off else IntRead(VarInt32, buf, off).value.1
  }

  /** `appendToByteBuffer`: checks, then the writes. */
  method AppendBytes(size: Option<int>, v: Value, sink: ByteSink) returns (err: Option<Error>)
    modifies sink
    ensures BytesAppend(size, v).Ok? ==> err == None && sink.data == old(sink.data) + BytesAppend(size, v).value
    ensures BytesAppend(size, v).Err? ==> err == Some(BytesAppend(size, v).error) && sink.data == old(sink.data)
  {
    var bytes := ToBytes(size, v);
    if bytes.Err? {
      return Some(bytes.error);
    }
    if size.Some? {
      err := AppendInt(VarInt32, Num(size.value), sink);
      if err.Some? {
        return;
      }
    }
    sink.Append(bytes.value);
    return None;
  }

  /* ---------------------------------------------------------------------- */
  /* What the mismatch between writer and reader does                       */
  /* ---------------------------------------------------------------------- */

  /** Variable size: the bytes are written without any length in front. */
  lemma VariableSizeWritesNoLength(v: Value)
    requires v.Buf? || v.Str?
    ensures BytesAppend(None, v) == Ok(Contents(v))
  {
  }

  /**
   * Variable size: whatever the decoder returns from a buffer it consumes
   * entirely is shorter than that buffer, because the first byte went to the
   * length.  So no encoding decodes to the bytes it came from.
   */
  lemma VariableSizeDecodeIsShorter(buf: seq<byte>)
    requires BytesRead(None, buf, 0).Ok?
    ensures |BytesRead(None, buf, 0).value.0.data| < |buf|
  {
  }

  /**
   * Fixed size n: the encoder writes the varint32 of n and then n bytes, but
   * the decoder takes the first n of them, the length prefix included, and
   * stops short of the end.
   */
  lemma FixedSizeDecodeStopsShort(n: int, v: Value)
    requires BytesAppend(Some(n), v).Ok?
    ensures BytesRead(Some(n), BytesAppend(Some(n), v).value, 0).Ok?
    ensures BytesRead(Some(n), BytesAppend(Some(n), v).value, 0).value.1 == n < |BytesAppend(Some(n), v).value|
  {
    var e := BytesAppend(Some(n), v).value;
    assert e == Leb128(n) + Contents(v);
  }

  /** One fixed byte 0x07 is written as [1, 7] and read back as [1]. */
  lemma FixedSizeExample()
    ensures BytesAppend(Some(1), Buf([7])) == Ok([1, 7])
    ensures BytesRead(Some(1), [1, 7], 0) == Ok((Buf([1]), 1))
  {
    VarintAppendOfCount(1);
    assert Leb128(1) == [1];
    assert ToBytes(Some(1), Buf([7])) == Ok([7]);
    assert [1] + [7] == [1, 7];
    assert [1, 7][0..1] == [1];
  }
}
