/**
 * The bool codec: one byte, written from the truth of the value and read
 * back through the uint8 decoder, accepting only 0 and 1.
 */
module Bools {

  import opened Text
  import opened Errors
  import opened Values
  import opened Ints
  import opened Sink

  /** The byte `appendToByteBuffer` writes: 1 for a truthy value, 0 otherwise. */
  function BoolBytes(v: Value): (r: seq<byte>)
    ensures |r| == 1 && r[0] <= 1
    ensures r[0] == 1 <==> Truthy(v)
  {
    [if Truthy(v) then 1 else 0]
  }

  /**
   * `readFromBuffer`: the uint8 read, its failures prefixed "bool", then a
   * byte above 1 rejected and the value taken as `byte != 0`.
   */
  function BoolRead(buf: seq<byte>, off: nat): (r: Result<(Value, nat)>)
    ensures off >= |buf| ==> r == Err(Error(UnexpectedBufferEnd(8, true), [BoolSeg]))
    ensures off < |buf| && buf[off] > 1 ==> r == Err(Fail(InvalidBoolByte))
    ensures off < |buf| && buf[off] <= 1 ==> r == Ok((Bool(buf[off] == 1), off + 1))
  {
    UInt8ReadAt(buf, off);
    var (res, newOffset) :- Prefixed(BoolSeg, IntRead(UInt8, buf, off));
    if res.n > 1 then Err(Fail(InvalidBoolByte)) else Ok((Bool(res.n != 0), newOffset))
  }

  /** The uint8 decoder reads the byte at the offset, or fails past the end. */
  lemma UInt8ReadAt(buf: seq<byte>, off: nat)
    ensures off >= |buf| ==> IntRead(UInt8, buf, off) == Err(Fail(UnexpectedBufferEnd(8, true)))
    ensures off < |buf| ==> IntRead(UInt8, buf, off) == Ok((Num(buf[off]), off + 1))
  {
    if off < |buf| {
      var bs := buf[off..off + 1];
      assert bs == [buf[off]];
      assert LEValue(bs) == buf[off] by {
        assert bs[1..] == [];
      }
      SignedValue(bs);
      UnsignedValueInRange(UInt8, bs);
    }
  }

  /** What the encoder writes, the decoder reads back as the value's truth, one byte further on. */
  lemma BoolRoundTrip(v: Value, pre: seq<byte>, rest: seq<byte>)
    ensures BoolRead(pre + BoolBytes(v) + rest, |pre|) == Ok((Bool(Truthy(v)), |pre| + 1))
  {
    var buf := pre + BoolBytes(v) + rest;
    assert buf[|pre|] == BoolBytes(v)[0];
  }

  /** `appendToByteBuffer`: appends the single byte. */
  method AppendBool(v: Value, sink: ByteSink)
    modifies sink
    ensures sink.data == old(sink.data) + BoolBytes(v)
  {
    sink.Append([if Truthy(v) then 1 else 0]);
  }
}
