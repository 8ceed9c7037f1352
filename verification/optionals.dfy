/**
 * `optional(type)`: a presence byte written and read by the bool codec,
 * then, when present, the inner codec's encoding.  Null and undefined are
 * absent; the inner codec's failures are prefixed "optional".
 */
module Optionals {

  import opened Text
  import opened Errors
  import opened Values
  import opened Bools
  import opened Sink
  import opened Codec
  import opened RoundTrip

  /**
   * `appendToByteBuffer`: the flag 0 for an absent value; otherwise the
   * inner value is serialized first, so that a failure writes nothing, and
   * then the flag 1 and those bytes are appended.
   */
  method AppendOptional(inner: Schema, v: Value, sink: ByteSink) returns (err: Option<Error>)
    modifies sink
    ensures sink.data == old(sink.data) + Append(OptionalS(inner), v).bytes
    ensures err == Append(OptionalS(inner), v).failure
  {
    if IsAbsent(v) {
      AppendBool(Bool(false), sink);
      return None;
    }
    var serialized := Encode(inner, v);
    if serialized.Err? {
      return Some(Prefix(OptionalSeg, serialized.error));
    }
    ghost var before := sink.data;
    AppendBool(Bool(true), sink);
    sink.Append(serialized.value);
    Regroup3(before, [1], serialized.value);
    OptionalEncoding(inner, v);
    return None;
  }

  /** An absent value is the single byte 0; a present one is 1 then the inner encoding, or the inner failure prefixed. */
  lemma OptionalEncoding(inner: Schema, v: Value)
    ensures IsAbsent(v) ==> Encode(OptionalS(inner), v) == Ok([0])
    ensures !IsAbsent(v) && Encode(inner, v).Ok? ==> Encode(OptionalS(inner), v) == Ok([1] + Encode(inner, v).value)
    ensures !IsAbsent(v) && Encode(inner, v).Err? ==>
              Encode(OptionalS(inner), v) == Err(Prefix(OptionalSeg, Encode(inner, v).error))
  {
    EncodesAsOptional(OptionalS(inner), v);
  }

  /** `toJSON` and `fromJSON` give null for an absent value and delegate, prefixed, otherwise. */
  lemma OptionalJson(inner: Schema, v: Value)
    ensures IsAbsent(v) ==> ToJson(OptionalS(inner), v) == Ok(Null) && FromJson(OptionalS(inner), v) == Ok(Null)
    ensures !IsAbsent(v) ==> ToJson(OptionalS(inner), v) == Prefixed(OptionalSeg, ToJson(inner, v))
    ensures !IsAbsent(v) ==> FromJson(OptionalS(inner), v) == Prefixed(OptionalSeg, FromJson(inner, v))
  {
    JsonAsOptional(OptionalS(inner), v);
  }

  /**
   * `readFromBuffer`: past the end, or on a flag above 1, it fails under
   * "optional"; flag 0 gives null one byte on; flag 1 gives the inner
   * decode one byte on.
   */
  lemma OptionalDecode(inner: Schema, buf: seq<byte>, off: nat)
    ensures off >= |buf| ==>
              Decode(OptionalS(inner), buf, off) == Err(Error(UnexpectedBufferEnd(8, true), [OptionalSeg, BoolSeg]))
    ensures off < |buf| && buf[off] > 1 ==> Decode(OptionalS(inner), buf, off) == Err(Error(InvalidBoolByte, [OptionalSeg]))
    ensures off < |buf| && buf[off] == 0 ==> Decode(OptionalS(inner), buf, off) == Ok((Null, off + 1))
    ensures off < |buf| && buf[off] == 1 ==>
              Decode(OptionalS(inner), buf, off) == Prefixed(OptionalSeg, Decode(inner, buf, off + 1))
  {
    DecodesAsOptional(OptionalS(inner), buf, off);
  }

  /**
   * Round trip: an absent value comes back as null; a present one comes
   * back as the inner codec returns it, provided that is not itself absent.
   */
  lemma OptionalFaithful(inner: Schema, v: Value, w: Value)
    requires IsAbsent(v) || (Faithful(inner, v, w) && !IsAbsent(w))
    ensures Faithful(OptionalS(inner), v, if IsAbsent(v) then Null else w)
  {
    if IsAbsent(v) {
      AbsentFaithful(inner, v);
    } else {
      PresentFaithful(inner, v, w);
    }
  }

  lemma AbsentFaithful(inner: Schema, v: Value)
    requires IsAbsent(v)
    ensures Faithful(OptionalS(inner), v, Null)
  {
    var s := OptionalS(inner);
    OptionalEncoding(inner, v);
    OptionalEncoding(inner, Null);
    var bytes: seq<byte> := [0];
    forall buf: seq<byte>, off: nat | Holds(buf, off, bytes)
      ensures Decode(s, buf, off) == Ok((Null, off + |bytes|))
    {
      assert buf[off] == bytes[0];
      OptionalDecode(inner, buf, off);
    }
    assert DecodesAt(s, bytes, Null);
  }

  lemma PresentFaithful(inner: Schema, v: Value, w: Value)
    requires Faithful(inner, v, w) && !IsAbsent(v) && !IsAbsent(w)
    ensures Faithful(OptionalS(inner), v, w)
  {
    var s := OptionalS(inner);
    OptionalEncoding(inner, v);
    OptionalEncoding(inner, w);
    var bytes := [1] + Encode(inner, v).value;
    assert Encode(s, v) == Ok(bytes);
    PresentDecodesAt(inner, Encode(inner, v).value, w);
  }

  /** Wherever the flag 1 and inner bytes that decode to `w` sit, `w` is read, up to the end of those bytes. */
  lemma PresentDecodesAt(inner: Schema, e: seq<byte>, w: Value)
    requires DecodesAt(inner, e, w)
    ensures DecodesAt(OptionalS(inner), [1] + e, w)
  {
    forall buf: seq<byte>, off: nat | Holds(buf, off, [1] + e)
      ensures Decode(OptionalS(inner), buf, off) == Ok((w, off + |[1] + e|))
    {
      PresentAt(inner, e, w, buf, off);
    }
  }

  /** The present case at one placement: the flag 1 at `off`, then the inner bytes decoded one byte on. */
  lemma PresentAt(inner: Schema, e: seq<byte>, w: Value, buf: seq<byte>, off: nat)
    requires DecodesAt(inner, e, w) && Holds(buf, off, [1] + e)
    ensures Decode(OptionalS(inner), buf, off) == Ok((w, off + 1 + |e|))
  {
    FlagThen(buf, off, e);
    DecodesHolds(inner, e, w, buf, off + 1);
    PresentStep(inner, buf, off, w, off + 1 + |e|);
  }

  lemma PresentStep(inner: Schema, buf: seq<byte>, off: nat, w: Value, end: nat)
    requires off < |buf| && buf[off] == 1 && Decode(inner, buf, off + 1) == Ok((w, end))
    ensures Decode(OptionalS(inner), buf, off) == Ok((w, end))
  {
    OptionalDecode(inner, buf, off);
  }

  /** The flag 1 at `off` and the bytes after it. */
  lemma FlagThen(buf: seq<byte>, off: nat, e: seq<byte>)
    requires Holds(buf, off, [1] + e)
    ensures off < |buf| && buf[off] == 1 && Holds(buf, off + 1, e)
  {
    HoldsParts(buf, off, [1], e);
  }
}
