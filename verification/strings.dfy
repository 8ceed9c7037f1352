/**
 * The string codec: the variable-size bytes codec applied to the string's
 * UTF-8 bytes, every failure prefixed "string".  The JSON form is the string
 * itself.
 *
 * Because it is built on variable-size bytes, it inherits their mismatch:
 * the encoder writes the bytes alone and the decoder expects a varint32
 * length in front of them.
 */
module Strings {

  import opened Text
  import opened Errors
  import opened Values
  import opened Ints
  import opened ByteStrings
  import opened Sink

  /** `appendToByteBuffer`: `Buffer.from(value)` handed to variable-size bytes. */
  function StringAppend(v: Value): (r: Result<seq<byte>>)
    ensures v.Str? ==> r == Ok(v.s)
    ensures v.Buf? ==> r == Ok(v.data)
    ensures !v.Str? && !v.Buf? ==> r == Err(Error(NotOfType, [StringSeg]))
  {
    Prefixed(StringSeg, BytesAppend(None, v))
  }

  /** `readFromBuffer`: the variable-size bytes read, as a string, with the same new offset. */
  function StringRead(buf: seq<byte>, off: nat): (r: Result<(Value, nat)>)
    ensures r.Ok? <==> BytesRead(None, buf, off).Ok?
    ensures r.Ok? ==> r.value == (Str(BytesRead(None, buf, off).value.0.data), BytesRead(None, buf, off).value.1)
    ensures r.Err? ==> r.error == Prefix(StringSeg, BytesRead(None, buf, off).error)
  {
    var (bytes, newOffset) :- Prefixed(StringSeg, BytesRead(None, buf, off));
    Ok((Str(bytes.data), newOffset))
  }

  /** `appendToByteBuffer`, writing into the sink. */
  method AppendString(v: Value, sink: ByteSink) returns (err: Option<Error>)
    modifies sink
    ensures StringAppend(v).Ok? ==> err == None && sink.data == old(sink.data) + StringAppend(v).value
    ensures StringAppend(v).Err? ==> err == Some(StringAppend(v).error) && sink.data == old(sink.data)
  {
    err := AppendBytes(None, v, sink);
    if err.Some? {
      err := Some(Prefix(StringSeg, err.value));
    }
  }

  /**
   * No non-empty string survives encode then decode: whatever the decoder
   * returns from the encoder's output is a strictly shorter string.
   */
  lemma StringNeverRoundTrips(s: seq<byte>)
    requires StringRead(s, 0).Ok?
    ensures StringAppend(Str(s)) == Ok(s)
    ensures |StringRead(s, 0).value.0.s| < |s|
  {
    VariableSizeDecodeIsShorter(s);
  }

  /** "ab" is written as its two bytes; reading them takes 0x61 = 97 as the length and runs out. */
  lemma StringExample()
    ensures StringAppend(Str([0x61, 0x62])) == Ok([0x61, 0x62])
    ensures StringRead([0x61, 0x62], 0) == Err(Error(UnexpectedEndOfBuffer, [StringSeg]))
  {
    var buf: seq<byte> := [0x61, 0x62];
    assert VarintFrom(buf, 0) == Ok((0x61, 1));
    MaxAbsValues();
    assert IntRead(VarInt32, buf, 0) == Ok((Num(0x61), 1));
    assert Slice(buf, 1, 1 + 0x61) == [0x62];
  }
}
