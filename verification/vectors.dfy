/**
 * `vector(type, size)`: a fixed number of elements, or a varint32 count in
 * front of them.  Every element is serialized before anything is written;
 * an element's failure is prefixed with its position, `vector[i]`.
 */
module Vectors {

  import opened Text
  import opened Errors
  import opened Values
  import opened Ints
  import opened Sink
  import opened Codec
  import opened RoundTrip

  /**
   * `appendToByteBuffer`: the size check, the elements serialized one by
   * one into a list, then the count (unless the size is fixed) and the
   * serialized elements appended in order.
   */
  method AppendVector(p: Schema, v: Value, sink: ByteSink) returns (err: Option<Error>)
    requires p.VectorS?
    modifies sink
    ensures sink.data == old(sink.data) + Append(p, v).bytes
    ensures err == Append(p, v).failure
  {
    if !v.Arr? {
      return Some(Fail(NotOfType));
    }
    if p.size.Some? && |v.items| != p.size.value {
      return Some(Fail(VectorInvalidSize));
    }
    var parts := SerializeItems(p, v.items);
    if parts.Err? {
      return Some(parts.error);
    }
    var count: seq<byte> := [];
    if p.size.None? {
      var c := IntAppend(VarInt32, Num(|v.items|));
      if c.Err? {
        return Some(c.error);
      }
      count := c.value;
    }
    sink.Append(count);
    sink.AppendAll(parts.value);
    return None;
  }

  /** `value.map((e, i) => this._try(i, () => this.type.serialize(e)))`: the first failure stops it. */
  method SerializeItems(p: Schema, items: seq<Value>) returns (r: Result<seq<seq<byte>>>)
    requires p.VectorS?
    ensures r == EncodeItems(p, items, 0, [])
  {
    var parts: seq<seq<byte>> := [];
    var i := 0;
    while i < |items|
      invariant 0 <= i <= |items|
      invariant EncodeItems(p, items, 0, []) == EncodeItems(p, items, i, parts)
    {
      var e := Encode(p.elem, items[i]);
      if e.Err? {
        return Err(Prefix(VectorAt(i), e.error));
      }
      parts := parts + [e.value];
      i := i + 1;
    }
    return Ok(parts);
  }

  /**
   * `readFromBuffer`: the count, then a loop that decodes one element at
   * the current offset, moves the offset past it and pushes the element.
   */
  method ReadVector(p: Schema, buf: seq<byte>, off: nat) returns (r: Result<(Value, nat)>)
    requires p.VectorS?
    ensures r == Decode(p, buf, off)
  {
    DecodesAsVector(p, buf, off);
    var c := Count(p.size, buf, off);
    if c.Err? {
      return Err(c.error);
    }
    var (size, start) := c.value;
    var offset := start;
    var result: seq<Value> := [];
    var i := 0;
    while i < size
      invariant DecodeItems(p, buf, start, size, 0, []) == DecodeItems(p, buf, offset, size, i, result)
      decreases size - i
    {
      var d := Decode(p.elem, buf, offset);
      if d.Err? {
        return Err(Prefix(VectorAt(i), d.error));
      }
      offset := d.value.1;
      result := result + [d.value.0];
      i := i + 1;
    }
    return Ok((Arr(result), offset));
  }

  /* ---------------------------------------------------------------------- */
  /* What each operation does                                               */
  /* ---------------------------------------------------------------------- */

  /**
   * Serialization: a non-array or a length other than the fixed size fails;
   * otherwise it succeeds exactly when every element serializes (and the
   * count fits a varint32), and the bytes are the count, unless the size is
   * fixed, then the elements' serializations in order.
   */
  lemma VectorEncoding(p: Schema, v: Value)
    requires p.VectorS?
    ensures !v.Arr? ==> Encode(p, v) == Err(Fail(NotOfType))
    ensures v.Arr? && p.size.Some? && |v.items| != p.size.value ==> Encode(p, v) == Err(Fail(VectorInvalidSize))
    ensures v.Arr? && (p.size.None? || |v.items| == p.size.value) ==>
              (Encode(p, v).Ok? <==>
                 (forall j :: 0 <= j < |v.items| ==> Encode(p.elem, v.items[j]).Ok?) &&
                 (p.size.None? ==> |v.items| <= 0x7FFF_FFFF))
    ensures v.Arr? && Encode(p, v).Ok? ==>
              var parts := EncodeItems(p, v.items, 0, []).value;
              |parts| == |v.items| &&
              (forall j :: 0 <= j < |v.items| ==> parts[j] == Encode(p.elem, v.items[j]).value) &&
              Encode(p, v).value == (if p.size.None? then Leb128(|v.items|) else []) + Concat(parts)
  {
    EncodesAsVector(p, v);
    if v.Arr? && (p.size.None? || |v.items| == p.size.value) && p.size.None? {
      MaxAbsValues();
      if |v.items| <= 0x7FFF_FFFF {
        VarintAppendOfCount(|v.items|);
      }
    }
  }

  /**
   * The first element that fails to serialize decides the failure: its
   * error, prefixed with its position.
   */
  lemma VectorFirstFailure(p: Schema, items: seq<Value>, j: nat)
    requires p.VectorS? && (p.size.None? || |items| == p.size.value)
    requires j < |items| && Encode(p.elem, items[j]).Err?
    requires forall k :: 0 <= k < j ==> Encode(p.elem, items[k]).Ok?
    ensures Encode(p, Arr(items)) == Err(Prefix(VectorAt(j), Encode(p.elem, items[j]).error))
  {
    EncodesAsVector(p, Arr(items));
    FirstFailure(p, items, 0, [], j);
  }

  lemma {:induction false} FirstFailure(p: Schema, items: seq<Value>, i: nat, acc: seq<seq<byte>>, j: nat)
    requires p.VectorS? && i <= j < |items| && Encode(p.elem, items[j]).Err?
    requires forall k :: i <= k < j ==> Encode(p.elem, items[k]).Ok?
    ensures EncodeItems(p, items, i, acc) == Err(Prefix(VectorAt(j), Encode(p.elem, items[j]).error))
    decreases j - i
  {
    if i < j {
      FirstFailure(p, items, i + 1, acc + [Encode(p.elem, items[i]).value], j);
    }
  }

  /** `toJSON` and `fromJSON`: the same checks, then an element-wise map that keeps length and order. */
  lemma VectorJson(p: Schema, v: Value)
    requires p.VectorS?
    ensures ToJson(p, v).Ok? <==>
              v.Arr? && (p.size.None? || |v.items| == p.size.value) &&
              forall j :: 0 <= j < |v.items| ==> ToJson(p.elem, v.items[j]).Ok?
    ensures ToJson(p, v).Ok? ==>
              ToJson(p, v).value.Arr? && |ToJson(p, v).value.items| == |v.items| &&
              forall j :: 0 <= j < |v.items| ==> ToJson(p, v).value.items[j] == ToJson(p.elem, v.items[j]).value
    ensures FromJson(p, v).Ok? <==>
              v.Arr? && (p.size.None? || |v.items| == p.size.value) &&
              forall j :: 0 <= j < |v.items| ==> FromJson(p.elem, v.items[j]).Ok?
    ensures FromJson(p, v).Ok? ==>
              FromJson(p, v).value.Arr? && |FromJson(p, v).value.items| == |v.items| &&
              forall j :: 0 <= j < |v.items| ==> FromJson(p, v).value.items[j] == FromJson(p.elem, v.items[j]).value
  {
    JsonAsVector(p, v);
  }

  /** JSON written by `toJSON` is read back element by element when each element's is. */
  lemma VectorJsonRoundTrip(p: Schema, items: seq<Value>, ws: seq<Value>)
    requires p.VectorS? && (p.size.None? || |items| == p.size.value) && |ws| == |items|
    requires forall j :: 0 <= j < |items| ==> ToJson(p.elem, items[j]).Ok? && FromJson(p.elem, ToJson(p.elem, items[j]).value) == Ok(ws[j])
    ensures ToJson(p, Arr(items)).Ok? && FromJson(p, ToJson(p, Arr(items)).value) == Ok(Arr(ws))
  {
    VectorJson(p, Arr(items));
    var js := ToJson(p, Arr(items)).value;
    VectorJson(p, js);
    assert FromJson(p, js).value.items == ws;
  }

  /**
   * Decoding: the count (the fixed size, or a varint32 read first), then
   * exactly that many elements, none when the count is not positive.
   */
  lemma VectorDecode(p: Schema, buf: seq<byte>, off: nat)
    requires p.VectorS?
    ensures Count(p.size, buf, off).Err? ==> Decode(p, buf, off) == Err(Count(p.size, buf, off).error)
    ensures Decode(p, buf, off).Ok? ==>
              Count(p.size, buf, off).Ok? && Decode(p, buf, off).value.0.Arr? &&
              var count := Count(p.size, buf, off).value.0;
              |Decode(p, buf, off).value.0.items| == if count < 0 then 0 else count
  {
    DecodesAsVector(p, buf, off);
  }

  /* ---------------------------------------------------------------------- */
  /* Round trip                                                             */
  /* ---------------------------------------------------------------------- */

  /**
   * When every element comes back from its own codec, the vector comes back
   * element by element, whether the size is fixed or counted.
   */
  lemma VectorFaithful(p: Schema, items: seq<Value>, ws: seq<Value>)
    requires p.VectorS? && |ws| == |items|
    requires p.size.None? ==> |items| <= 0x7FFF_FFFF
    requires p.size.Some? ==> p.size.value == |items|
    requires forall j :: 0 <= j < |items| ==> Faithful(p.elem, items[j], ws[j])
    ensures Faithful(p, Arr(items), Arr(ws))
  {
    var parts := EncodeItems(p, items, 0, []).value;
    forall j | 0 <= j < |items|
      ensures Encode(p.elem, items[j]).Ok? && Encode(p.elem, ws[j]) == Encode(p.elem, items[j])
      ensures j < |parts| ==> DecodesAt(p.elem, parts[j], ws[j])
    {
      assert Faithful(p.elem, items[j], ws[j]);
    }
    VectorBytes(p, items, ws);
    VectorDecodesAt(p, ws, parts);
  }

  /** Elements that encode alike make vectors that encode alike: the count, then the elements' bytes. */
  lemma VectorBytes(p: Schema, items: seq<Value>, ws: seq<Value>)
    requires p.VectorS? && |ws| == |items|
    requires p.size.None? ==> |items| <= 0x7FFF_FFFF
    requires p.size.Some? ==> p.size.value == |items|
    requires forall j :: 0 <= j < |items| ==> Encode(p.elem, items[j]).Ok? && Encode(p.elem, ws[j]) == Encode(p.elem, items[j])
    ensures |EncodeItems(p, items, 0, []).value| == |items|
    ensures Encode(p, Arr(items)) == Ok(CountBytes(p.size, |items|) + Concat(EncodeItems(p, items, 0, []).value))
    ensures Encode(p, Arr(ws)) == Encode(p, Arr(items))
  {
    VectorEncoding(p, Arr(items));
    VectorEncoding(p, Arr(ws));
    assert EncodeItems(p, ws, 0, []).value == EncodeItems(p, items, 0, []).value;
  }

  /** Elements that decode from their parts make a vector that decodes from the count and the parts. */
  lemma VectorDecodesAt(p: Schema, ws: seq<Value>, parts: seq<seq<byte>>)
    requires p.VectorS? && |ws| == |parts|
    requires p.size.None? ==> |parts| <= 0x7FFF_FFFF
    requires p.size.Some? ==> p.size.value == |parts|
    requires PartsDecode(p.elem, parts, ws)
    ensures DecodesAt(p, CountBytes(p.size, |parts|) + Concat(parts), Arr(ws))
  {
    var bytes := CountBytes(p.size, |parts|) + Concat(parts);
    forall buf: seq<byte>, off: nat | Holds(buf, off, bytes)
      ensures Decode(p, buf, off) == Ok((Arr(ws), off + |bytes|))
    {
      VectorPlaced(p, ws, parts, buf, off);
    }
  }

  /** Each part decodes, wherever it sits, to the value at the same position. */
  ghost predicate PartsDecode(elem: Schema, parts: seq<seq<byte>>, ws: seq<Value>) {
    |parts| == |ws| && forall j :: 0 <= j < |parts| ==> DecodesAt(elem, parts[j], ws[j])
  }

  /** The count a vector writes before its elements: none when the size is fixed. */
  function CountBytes(size: Option<int>, n: nat): seq<byte>
  {
    if size.None? then Leb128(n) else []
  }

  /** The round trip at one placement: the count, then the elements. */
  lemma VectorPlaced(p: Schema, ws: seq<Value>, parts: seq<seq<byte>>, buf: seq<byte>, off: nat)
    requires p.VectorS? && |ws| == |parts|
    requires p.size.None? ==> |parts| <= 0x7FFF_FFFF
    requires p.size.Some? ==> p.size.value == |parts|
    requires PartsDecode(p.elem, parts, ws)
    requires Holds(buf, off, CountBytes(p.size, |parts|) + Concat(parts))
    ensures Decode(p, buf, off) == Ok((Arr(ws), off + |CountBytes(p.size, |parts|) + Concat(parts)|))
  {
    var start := CountPlaced(p.size, parts, buf, off);
    AllItems(p, ws, parts, buf, start);
    VectorStep(p, buf, off, |parts|, start, ws, start + |Concat(parts)|);
  }

  /** The decode loop from the first element reads all of them. */
  lemma AllItems(p: Schema, ws: seq<Value>, parts: seq<seq<byte>>, buf: seq<byte>, off: nat)
    requires p.VectorS? && |ws| == |parts|
    requires PartsDecode(p.elem, parts, ws)
    requires Holds(buf, off, Concat(parts))
    ensures DecodeItems(p, buf, off, |parts|, 0, []) == Ok((ws, off + |Concat(parts)|))
  {
    Whole(parts);
    Whole(ws);
    DecodeItemsFrom(p, ws, parts, buf, off, 0, []);
  }

  /** The count at `off` reads back as the number of elements, and the elements follow it. */
  lemma CountPlaced(size: Option<int>, parts: seq<seq<byte>>, buf: seq<byte>, off: nat) returns (start: nat)
    requires size.None? ==> |parts| <= 0x7FFF_FFFF
    requires size.Some? ==> size.value == |parts|
    requires Holds(buf, off, CountBytes(size, |parts|) + Concat(parts))
    ensures start == off + |CountBytes(size, |parts|)|
    ensures Count(size, buf, off) == Ok((|parts|, start))
    ensures Holds(buf, start, Concat(parts))
  {
    var count := CountBytes(size, |parts|);
    HoldsParts(buf, off, count, Concat(parts));
    if size.None? {
      CountAt(|parts|, buf, off);
    }
    start := off + |count|;
  }

  lemma VectorStep(p: Schema, buf: seq<byte>, off: nat, n: int, start: nat, ws: seq<Value>, end: nat)
    requires p.VectorS? && Count(p.size, buf, off) == Ok((n, start))
    requires DecodeItems(p, buf, start, n, 0, []) == Ok((ws, end))
    ensures Decode(p, buf, off) == Ok((Arr(ws), end))
  {
    DecodesAsVector(p, buf, off);
  }

  /**
   * The decode loop over the serialized elements from `i` on: they decode
   * to `ws[i..]`, ending right after the last of them.
   */
  lemma {:induction false} DecodeItemsFrom(p: Schema, ws: seq<Value>, parts: seq<seq<byte>>,
                                            buf: seq<byte>, off: nat, i: nat, acc: seq<Value>)
    requires p.VectorS? && |ws| == |parts| && i <= |parts|
    requires PartsDecode(p.elem, parts, ws)
    requires Holds(buf, off, Concat(parts[i..]))
    ensures DecodeItems(p, buf, off, |parts|, i, acc) == Ok((acc + ws[i..], off + |Concat(parts[i..])|))
    decreases |parts| - i, 1
  {
    if i == |parts| {
      ItemsDone(p, ws, parts, buf, off, i, acc);
    } else {
      NextItem(p.elem, ws, parts, buf, off, i);
      ItemsMore(p, ws, parts, buf, off, i, acc);
    }
  }

  /** The loop with an element still to read: that element, then the loop from the next one. */
  lemma {:induction false} ItemsMore(p: Schema, ws: seq<Value>, parts: seq<seq<byte>>,
                                     buf: seq<byte>, off: nat, i: nat, acc: seq<Value>)
    requires p.VectorS? && |ws| == |parts| && i < |parts|
    requires PartsDecode(p.elem, parts, ws)
    requires Decode(p.elem, buf, off) == Ok((ws[i], off + |parts[i]|))
    requires Holds(buf, off + |parts[i]|, Concat(parts[i + 1..]))
    ensures DecodeItems(p, buf, off, |parts|, i, acc) == Ok((acc + ws[i..], off + |Concat(parts[i..])|))
    decreases |parts| - i, 0
  {
    DecodeItemsFrom(p, ws, parts, buf, off + |parts[i]|, i + 1, acc + [ws[i]]);
    ItemsStep(p, ws, parts, buf, off, i, acc);
  }

  lemma ConcatFirst(parts: seq<seq<byte>>, i: nat)
    requires i < |parts|
    ensures Concat(parts[i..]) == parts[i] + Concat(parts[i + 1..])
  {
    assert parts[i..][1..] == parts[i + 1..];
  }

  /** One turn of the decode loop: the element at `off`, then the rest of the loop right after it. */
  lemma ItemsStep(p: Schema, ws: seq<Value>, parts: seq<seq<byte>>, buf: seq<byte>, off: nat, i: nat, acc: seq<Value>)
    requires p.VectorS? && |ws| == |parts| && i < |parts|
    requires Decode(p.elem, buf, off) == Ok((ws[i], off + |parts[i]|))
    requires DecodeItems(p, buf, off + |parts[i]|, |parts|, i + 1, acc + [ws[i]])
             == Ok((acc + [ws[i]] + ws[i + 1..], off + |parts[i]| + |Concat(parts[i + 1..])|))
    ensures DecodeItems(p, buf, off, |parts|, i, acc) == Ok((acc + ws[i..], off + |Concat(parts[i..])|))
  {
    ConcatFirst(parts, i);
    assert acc + [ws[i]] + ws[i + 1..] == acc + ws[i..];
  }

  /** The decode loop stops once every element is read. */
  lemma ItemsDone(p: Schema, ws: seq<Value>, parts: seq<seq<byte>>, buf: seq<byte>, off: nat, i: nat, acc: seq<Value>)
    requires p.VectorS? && |ws| == |parts| && i == |parts|
    ensures DecodeItems(p, buf, off, |parts|, i, acc) == Ok((acc + ws[i..], off + |Concat(parts[i..])|))
  {
    assert acc + ws[i..] == acc;
    assert Concat(parts[i..]) == [];
  }

  /** The element at `off` decodes and the rest of the elements follow it. */
  lemma NextItem(elem: Schema, ws: seq<Value>, parts: seq<seq<byte>>, buf: seq<byte>, off: nat, i: nat)
    requires |ws| == |parts| && i < |parts|
    requires DecodesAt(elem, parts[i], ws[i])
    requires Holds(buf, off, Concat(parts[i..]))
    ensures Decode(elem, buf, off) == Ok((ws[i], off + |parts[i]|))
    ensures Holds(buf, off + |parts[i]|, Concat(parts[i + 1..]))
  {
    FirstPart(parts, buf, off, i);
    DecodesHolds(elem, parts[i], ws[i], buf, off);
  }

  /** Parts from `i` on held at `off`: part `i` there, the rest right after it. */
  lemma FirstPart(parts: seq<seq<byte>>, buf: seq<byte>, off: nat, i: nat)
    requires i < |parts| && Holds(buf, off, Concat(parts[i..]))
    ensures Holds(buf, off, parts[i]) && Holds(buf, off + |parts[i]|, Concat(parts[i + 1..]))
  {
    ConcatFirst(parts, i);
    HoldsParts(buf, off, parts[i], Concat(parts[i + 1..]));
  }
}
