/**
 * `variant(type0, type1, ...)`: a value is the pair `[tag, payload]`.  The
 * tag goes through varint32's `toJSON` check (failures prefixed
 * `variant[-1]`) and must name an alternative ("variant: key N not found",
 * not prefixed); the payload is handled by that alternative, its failures
 * prefixed `variant[tag]`.  On the wire: the varint32 tag, then the payload.
 */
module Variants {

  import opened Text
  import opened Errors
  import opened Values
  import opened Ints
  import opened Sink
  import opened Codec
  import opened RoundTrip

  /**
   * `appendToByteBuffer`: the tag checked, the payload serialized, and only
   * then the tag and the payload written.
   */
  method AppendVariant(p: Schema, v: Value, sink: ByteSink) returns (err: Option<Error>)
    requires p.VariantS?
    modifies sink
    ensures sink.data == old(sink.data) + Append(p, v).bytes
    ensures err == Append(p, v).failure
  {
    var tag := Tag(v);
    if tag.Err? {
      return Some(tag.error);
    }
    var index := tag.value;
    if index < 0 || index >= |p.alts| {
      return Some(Fail(KeyNotFound(index)));
    }
    var serialized := Encode(p.alts[index], Property(v, 1));
    if serialized.Err? {
      return Some(Prefix(VariantAt(index), serialized.error));
    }
    VarintAppendOfCount(index);
    ghost var before := sink.data;
    var _ := AppendInt(VarInt32, Num(index), sink);
    sink.Append(serialized.value);
    Regroup3(before, Leb128(index), serialized.value);
    return None;
  }

  /** The pair `[tag, x]` made of an alternative's result, or its failure prefixed `variant[tag]`. */
  function Tagged(t: int, r: Result<Value>): Result<Value> {
    match r
    case Ok(x) => Ok(Arr([Num(t), x]))
    case Err(e) => Err(Prefix(VariantAt(t), e))
  }

  /** The same for a decode, which also carries the offset after the payload. */
  function TaggedAt(t: int, r: Result<(Value, nat)>): Result<(Value, nat)> {
    match r
    case Ok((x, end)) => Ok((Arr([Num(t), x]), end))
    case Err(e) => Err(Prefix(VariantAt(t), e))
  }

  /* ---------------------------------------------------------------------- */
  /* What each operation does                                               */
  /* ---------------------------------------------------------------------- */

  /** Every failure of the tag's own check is located at `variant[-1]`. */
  lemma TagFailure(v: Value)
    ensures Tag(v).Err? ==> |Tag(v).error.path| > 0 && Tag(v).error.path[0] == VariantAt(-1)
    ensures IsAbsent(v) ==> Tag(v) == Err(Error(NotOfType, [VariantAt(-1)]))
  {
  }

  /**
   * Serialization: the tag's failure, or "key not found" for a tag outside
   * the alternatives; otherwise the varint32 tag followed by the payload's
   * serialization, or the payload's failure prefixed `variant[tag]`.
   */
  lemma VariantEncoding(p: Schema, v: Value)
    requires p.VariantS?
    ensures Tag(v).Err? ==> Encode(p, v) == Err(Tag(v).error)
    ensures Tag(v).Ok? && !(0 <= Tag(v).value < |p.alts|) ==> Encode(p, v) == Err(Fail(KeyNotFound(Tag(v).value)))
    ensures Tag(v).Ok? && 0 <= Tag(v).value < |p.alts| ==>
              var t := Tag(v).value;
              var e := Encode(p.alts[t], Property(v, 1));
              Encode(p, v) == if e.Ok? then Ok(Leb128(t) + e.value) else Err(Prefix(VariantAt(t), e.error))
  {
    EncodesAsVariant(p, v);
    if Tag(v).Ok? && 0 <= Tag(v).value < |p.alts| {
      VarintAppendOfCount(Tag(v).value);
    }
  }

  /**
   * `toJSON` and `fromJSON`: the same tag checks, then `[tag, json]` and
   * `[tag, value]` of the alternative's conversion of the payload.
   */
  lemma VariantJson(p: Schema, v: Value)
    requires p.VariantS?
    ensures Tag(v).Err? ==> ToJson(p, v) == Err(Tag(v).error) && FromJson(p, v) == Err(Tag(v).error)
    ensures Tag(v).Ok? && !(0 <= Tag(v).value < |p.alts|) ==>
              ToJson(p, v) == Err(Fail(KeyNotFound(Tag(v).value))) && FromJson(p, v) == Err(Fail(KeyNotFound(Tag(v).value)))
    ensures Tag(v).Ok? && 0 <= Tag(v).value < |p.alts| ==>
              var t := Tag(v).value;
              ToJson(p, v) == Tagged(t, ToJson(p.alts[t], Property(v, 1))) &&
              FromJson(p, v) == Tagged(t, FromJson(p.alts[t], Property(v, 1)))
  {
    JsonAsVariant(p, v);
  }

  /**
   * `readFromBuffer`: the varint32 tag (its failure prefixed `variant[-1]`),
   * which is never negative and must name an alternative; then that
   * alternative's decode right after the tag, which decides the offset.
   */
  lemma VariantDecode(p: Schema, buf: seq<byte>, off: nat)
    requires p.VariantS?
    ensures IntRead(VarInt32, buf, off).Err? ==>
              Decode(p, buf, off) == Err(Prefix(VariantAt(-1), IntRead(VarInt32, buf, off).error))
    ensures IntRead(VarInt32, buf, off).Ok? ==> IntRead(VarInt32, buf, off).value.0.n >= 0
    ensures IntRead(VarInt32, buf, off).Ok? && IntRead(VarInt32, buf, off).value.0.n >= |p.alts| ==>
              Decode(p, buf, off) == Err(Fail(KeyNotFound(IntRead(VarInt32, buf, off).value.0.n)))
    ensures IntRead(VarInt32, buf, off).Ok? && IntRead(VarInt32, buf, off).value.0.n < |p.alts| ==>
              var (t, start) := IntRead(VarInt32, buf, off).value;
              Decode(p, buf, off) == TaggedAt(t.n, Decode(p.alts[t.n], buf, start))
  {
    DecodesAsVariant(p, buf, off);
  }

  /**
   * A tag that names no alternative fails with "key N not found" in all
   * four operations: negative ones in the three that take a value, and
   * too large ones also when read from a buffer.
   */
  lemma VariantKeyNotFound(p: Schema, n: int, x: Value, rest: seq<byte>)
    requires p.VariantS? && Abs(n) <= 0x7FFF_FFFF && !(0 <= n < |p.alts|)
    ensures Encode(p, Arr([Num(n), x])) == Err(Fail(KeyNotFound(n)))
    ensures ToJson(p, Arr([Num(n), x])) == Err(Fail(KeyNotFound(n)))
    ensures FromJson(p, Arr([Num(n), x])) == Err(Fail(KeyNotFound(n)))
    ensures n >= 0 ==> Decode(p, Leb128(n) + rest, 0) == Err(Fail(KeyNotFound(n)))
  {
    VariantEncoding(p, Arr([Num(n), x]));
    VariantJson(p, Arr([Num(n), x]));
    if n >= 0 {
      HoldsBetween([], Leb128(n), rest);
      assert [] + Leb128(n) + rest == Leb128(n) + rest;
      CountAt(n, Leb128(n) + rest, 0);
      VariantDecode(p, Leb128(n) + rest, 0);
    }
  }

  /* ---------------------------------------------------------------------- */
  /* Round trip                                                             */
  /* ---------------------------------------------------------------------- */

  /**
   * When the chosen alternative round-trips its payload, the variant
   * round-trips the pair: `[t, x]` comes back as `[t, w]`.
   */
  lemma VariantFaithful(p: Schema, t: nat, x: Value, w: Value)
    requires p.VariantS? && t < |p.alts| && t <= 0x7FFF_FFFF && Faithful(p.alts[t], x, w)
    ensures Faithful(p, Arr([Num(t), x]), Arr([Num(t), w]))
  {
    var v := Arr([Num(t), x]);
    var vw := Arr([Num(t), w]);
    VariantEncoding(p, v);
    VariantEncoding(p, vw);
    var bytes := Leb128(t) + Encode(p.alts[t], x).value;
    assert Encode(p, v) == Ok(bytes);
    VariantDecodesAt(p, t, Encode(p.alts[t], x).value, w);
  }

  /** Wherever the tag and a payload that decodes to `w` sit, the pair `[t, w]` is read, up to the end of the payload. */
  lemma VariantDecodesAt(p: Schema, t: nat, e: seq<byte>, w: Value)
    requires p.VariantS? && t < |p.alts| && t <= 0x7FFF_FFFF && DecodesAt(p.alts[t], e, w)
    ensures DecodesAt(p, Leb128(t) + e, Arr([Num(t), w]))
  {
    forall buf: seq<byte>, off: nat | Holds(buf, off, Leb128(t) + e)
      ensures Decode(p, buf, off) == Ok((Arr([Num(t), w]), off + |Leb128(t) + e|))
    {
      VariantPlaced(p, t, e, w, buf, off);
    }
  }

  /** The same at one placement. */
  lemma VariantPlaced(p: Schema, t: nat, e: seq<byte>, w: Value, buf: seq<byte>, off: nat)
    requires p.VariantS? && t < |p.alts| && t <= 0x7FFF_FFFF && DecodesAt(p.alts[t], e, w)
    requires Holds(buf, off, Leb128(t) + e)
    ensures Decode(p, buf, off) == Ok((Arr([Num(t), w]), off + |Leb128(t) + e|))
  {
    CountThen(t, e, buf, off);
    PayloadAfterTag(p, t, e, w, buf, off, off + |Leb128(t)|);
  }

  /** The tag read at `off` and ending at `start`, where a payload that decodes to `w` sits. */
  lemma PayloadAfterTag(p: Schema, t: nat, e: seq<byte>, w: Value, buf: seq<byte>, off: nat, start: nat)
    requires p.VariantS? && t < |p.alts| && DecodesAt(p.alts[t], e, w)
    requires IntRead(VarInt32, buf, off) == Ok((Num(t), start)) && Holds(buf, start, e)
    ensures Decode(p, buf, off) == Ok((Arr([Num(t), w]), start + |e|))
  {
    DecodesHolds(p.alts[t], e, w, buf, start);
    VariantStep(p, buf, off, t, start, w, start + |e|);
  }

  /** A tag naming an alternative, then that alternative's payload. */
  lemma VariantStep(p: Schema, buf: seq<byte>, off: nat, t: nat, start: nat, w: Value, end: nat)
    requires p.VariantS? && t < |p.alts|
    requires IntRead(VarInt32, buf, off) == Ok((Num(t), start)) && Decode(p.alts[t], buf, start) == Ok((w, end))
    ensures Decode(p, buf, off) == Ok((Arr([Num(t), w]), end))
  {
    VariantDecode(p, buf, off);
  }
}
