/**
 * The four operations of every codec, over a description of the codec.
 *
 * A `Schema` names a codec the way the library's constructors compose them
 * (`vector(optional(uint8_t))`).  Each operation is one function by cases
 * on the schema, which hands a combinator to that combinator's own function
 * (`VectorAppend`, `VectorRead`, ...), as the TypeScript classes each
 * implement the operations; those reach their children through the same
 * dispatching functions, as the classes call `this.type.serialize(...)`:
 *
 *   Append    `appendToByteBuffer`: what is written, and the failure if any
 *   Encode    `serialize`: the bytes `appendToByteBuffer` writes into a fresh buffer
 *   Decode    `readFromBuffer`: the value and the offset after it
 *   ToJson    `toJSON`
 *   FromJson  `fromJSON`
 *
 * Every loop of the source over elements, fields or entries is one helper
 * that carries the loop's state (the index and what has been gathered so
 * far) as arguments; the imperative versions of those loops are proved
 * equal to these helpers.
 */
module Codec {

  import opened Text
  import opened Errors
  import opened Values
  import opened Sorting
  import opened Ints
  import opened Bools
  import opened ByteStrings
  import opened Strings
  import opened Sink

  datatype Schema =
    | IntS(kind: IntKind)                       // int64_t, uint8_t ... varint32_t
    | BoolS                                     // bool
    | BytesS(size: Option<int>)                 // bytes(size)
    | StringS                                   // string_t
    | VoidS                                     // void_t
    | OptionalS(inner: Schema)                  // optional(type)
    | VectorS(elem: Schema, size: Option<int>)  // vector(type, size)
    | StructS(fields: seq<(string, Schema)>)    // struct({ name: type, ... }), in declaration order
    | VariantS(alts: seq<Schema>)               // variant(type0, type1, ...)
    | FlatMapS(key: Schema, value: Schema)      // flat_map(key, value)
    | FlatSetS(elem: Schema)                    // flat_set(type)

  /** The constructor of `bytes`: a fixed size must pass varint32's bound check. */
  function NewBytes(size: Option<int>): (r: Result<Schema>)
    ensures r.Ok? <==> size.None? || Abs(size.value) <= 0x7FFF_FFFF
    ensures r.Ok? ==> r.value == BytesS(size)
  {
    var checked :- CheckSize(size);
    Ok(BytesS(checked))
  }

  /** The constructor of `vector`: a fixed size must pass varint32's bound check. */
  function NewVector(elem: Schema, size: Option<int>): (r: Result<Schema>)
    ensures r.Ok? <==> size.None? || Abs(size.value) <= 0x7FFF_FFFF
    ensures r.Ok? ==> r.value == VectorS(elem, size)
  {
    MaxAbsValues();
    if size.None? then Ok(VectorS(elem, size))
    else
      var _ :- IntToJson(VarInt32, Num(size.value));
      Ok(VectorS(elem, size))
  }

  /**
   * What one call of `appendToByteBuffer` leaves behind: the bytes it
   * appended to the buffer, and the error it threw, if it threw.  Only the
   * struct codec writes before it can fail; every other codec checks and
   * serializes first, so when it fails it has written nothing.
   */
  datatype Written = Written(bytes: seq<byte>, failure: Option<Error>)

  function FromResult(r: Result<seq<byte>>): Written {
    match r
    case Ok(bytes) => Written(bytes, None)
    case Err(e) => Written([], Some(e))
  }

  /** `a[i]` on an array's elements: undefined past the end. */
  function ArrItem(items: seq<Value>, i: nat): Value {
    if i < |items| then items[i] else Undefined
  }

  /**
   * `value[i]` on whatever value the caller passed: an array's element, a
   * Buffer's byte, a string's character, undefined where there is none;
   * reading a property of null or undefined throws.
   */
  function Item(v: Value, i: nat): (r: Result<Value>)
    ensures r.Err? <==> IsAbsent(v)
    ensures r.Ok? ==> r.value == Property(v, i)
  {
    if IsAbsent(v) then Err(Fail(NotOfType)) else Ok(Property(v, i))
  }

  /** The value `value[i]` reads when it does not throw. */
  function Property(v: Value, i: nat): Value {
    match v
    case Arr(items) => ArrItem(items, i)
    case Buf(data) => if i < |data| then Num(data[i]) else Undefined
    case Str(s) => if i < |s| then Str([s[i]]) else Undefined
    case _ => Undefined
  }

  /* ---------------------------------------------------------------------- */
  /* struct: the declared codec of a key                                    */
  /* ---------------------------------------------------------------------- */

  /** `this.types[key]`: the position of the declaration named `name`, or -1. */
  function FieldIndex(fields: seq<(string, Schema)>, name: string): (r: int)
    ensures -1 <= r < |fields|
    ensures r >= 0 ==> fields[r].0 == name
    ensures r < 0 <==> forall j :: 0 <= j < |fields| ==> fields[j].0 != name
  {
    if fields == [] then -1
    else if fields[0].0 == name then 0
    else
      var r := FieldIndex(fields[1..], name);
      if r < 0 then -1 else r + 1
  }

  /** `this.types[key]`, for a key that is declared. */
  function FieldCodec(p: Schema, key: string): (c: Schema)
    requires p.StructS? && FieldIndex(p.fields, key) >= 0
    ensures c < p
  {
    var j := FieldIndex(p.fields, key);
    assert p.fields[j] in p.fields;
    p.fields[j].1
  }

  /* ---------------------------------------------------------------------- */
  /* variant: the tag                                                       */
  /* ---------------------------------------------------------------------- */

  /** `varint32_t.toJSON(value[0])`, its failures prefixed "variant[-1]". */
  function Tag(v: Value): (r: Result<int>)
    ensures r.Ok? ==> Abs(r.value) <= 0x7FFF_FFFF
    ensures v.Arr? && |v.items| > 0 && v.items[0].Num? && Abs(v.items[0].n) <= 0x7FFF_FFFF ==> r == Ok(v.items[0].n)
  {
    MaxAbsValues();
    Prefixed(VariantAt(-1), var t :- Item(v, 0); var j :- IntToJson(VarInt32, t); Ok(j.n))
  }

  /** `if (index < 0 || !this.types[index]) throw "variant: key N not found"`. */
  function CheckTag(alts: seq<Schema>, n: int): (r: Result<nat>)
    ensures r.Ok? <==> 0 <= n < |alts|
    ensures r.Ok? ==> r.value == n
    ensures r.Err? ==> r.error == Fail(KeyNotFound(n))
  {
    if n < 0 || n >= |alts| then Err(Fail(KeyNotFound(n))) else Ok(n)
  }

  /* ---------------------------------------------------------------------- */
  /* flat_map and flat_set: entries and elements with their serializations  */
  /* ---------------------------------------------------------------------- */

  /** One element of `_prepareInput`'s result: the entry and the serializations of its key and value. */
  datatype Entry = Entry(key: Value, value: Value, keyBytes: seq<byte>, valueBytes: seq<byte>)

  /** One element of flat_set's `toJSON` items: serialization, element, original position. */
  datatype SetItem = SetItem(bytes: seq<byte>, element: Value, index: nat)

  /** The sort key of an entry: its serialized key (the hex string compares as these bytes do). */
  function KeyOf(e: Entry): seq<byte> {
    e.keyBytes
  }

  /** The sort key of a set item. */
  function ItemKey(it: SetItem): seq<byte> {
    it.bytes
  }

  /** The sort key of a serialized set element: itself. */
  function Self(b: seq<byte>): seq<byte> {
    b
  }

  function KeysOf(entries: seq<Entry>): (r: seq<seq<byte>>)
    ensures |r| == |entries| && forall i :: 0 <= i < |entries| ==> r[i] == entries[i].keyBytes
  {
    seq(|entries|, i requires 0 <= i < |entries| => entries[i].keyBytes)
  }

  /** What flat_map writes after the count: each entry's key bytes, then its value bytes. */
  function EntryBytes(entries: seq<Entry>): seq<byte> {
    if entries == [] then [] else entries[0].keyBytes + entries[0].valueBytes + EntryBytes(entries[1..])
  }

  /** flat_set's `toJSON` items: each serialization with the element at its position. */
  function Zip(parts: seq<seq<byte>>, elems: seq<Value>): (r: seq<SetItem>)
    ensures |r| == |parts|
    ensures forall i :: 0 <= i < |parts| ==> r[i] == SetItem(parts[i], ArrItem(elems, i), i)
  {
    seq(|parts|, i requires 0 <= i < |parts| => SetItem(parts[i], ArrItem(elems, i), i))
  }

  /** The locator of flat_map's `_try`: `flat_map["k"]` for a string key, `flat_map[i]` otherwise. */
  function EntrySeg(key: Value, index: int): Segment {
    if key.Str? then MapKey(key.s) else MapAt(index)
  }

  /** The pairs of an array given as map input; an element that is not an array cannot be destructured. */
  function Pairs(items: seq<Value>): (r: Result<seq<(Value, Value)>>)
    ensures r.Ok? <==> forall i :: 0 <= i < |items| ==> items[i].Arr?
    ensures r.Ok? ==> |r.value| == |items|
    ensures r.Ok? ==> forall i :: 0 <= i < |items| ==> r.value[i] == (ArrItem(items[i].items, 0), ArrItem(items[i].items, 1))
  {
    if exists i :: 0 <= i < |items| && !items[i].Arr? then Err(Fail(NotOfType))
    else Ok(seq(|items|, i requires 0 <= i < |items| => (ArrItem(items[i].items, 0), ArrItem(items[i].items, 1))))
  }

  /**
   * The map `_prepareInput` starts from: an array of pairs, rejected when a
   * key repeats and then made a Map; or a Map as it is.
   */
  function InputMap(v: Value): (r: Result<seq<(Value, Value)>>)
    ensures v.MapOf? ==> r == Ok(v.entries)
    ensures !v.Arr? && !v.MapOf? ==> r == Err(Fail(NotOfType))
  {
    match v
    case Arr(items) =>
      var pairs :- Pairs(items);
      if !DistinctKeys(pairs) then Err(Fail(MapKeyDuplicate)) else Ok(NewMap(pairs))
    case MapOf(entries) => Ok(entries)
    case _ => Err(Fail(NotOfType))
  }

  /** `[...value]` for flat_set input: an array's or a Set's elements. */
  function Elements(v: Value): (r: Result<seq<Value>>)
    ensures r.Ok? <==> v.Arr? || v.SetOf?
  {
    match v
    case Arr(items) => Ok(items)
    case SetOf(elems) => Ok(elems)
    case _ => Err(Fail(NotOfType))
  }

  /* ---------------------------------------------------------------------- */
  /* The four operations, by codec                                          */
  /* ---------------------------------------------------------------------- */

  /** `appendToByteBuffer`: what is written, and the failure if any. */
  function Append(s: Schema, v: Value): (w: Written)
    decreases s, 3, 0
  {
    match s
    case IntS(k) => FromResult(IntAppend(k, v))
    case BoolS => Written(BoolBytes(v), None)
    case BytesS(size) => FromResult(BytesAppend(size, v))
    case StringS => FromResult(StringAppend(v))
    case VoidS => Written([], Some(Fail(Unserializable)))
    case OptionalS(_) => FromResult(OptionalAppend(s, v))
    case VectorS(_, _) => FromResult(VectorAppend(s, v))
    case StructS(_) => StructAppend(s, v)
    case VariantS(_) => FromResult(VariantAppend(s, v))
    case FlatMapS(_, _) => FromResult(FlatMapAppend(s, v))
    case FlatSetS(_) => FromResult(FlatSetAppend(s, v))
  }

  /** `serialize`: what `appendToByteBuffer` writes into a fresh buffer, or its error. */
  function Encode(s: Schema, v: Value): (r: Result<seq<byte>>)
    decreases s, 4, 0
  {
    var w := Append(s, v);
    if w.failure.Some? then Err(w.failure.value) else Ok(w.bytes)
  }

  /** `toJSON`. */
  function ToJson(s: Schema, v: Value): (r: Result<Value>)
    decreases s, 3, 0
  {
    match s
    case IntS(k) => IntToJson(k, v)
    case BoolS => Ok(v)
    case BytesS(size) => BytesToJson(size, v)
    case StringS => Ok(v)
    case VoidS => Err(Fail(Unserializable))
    case OptionalS(_) => OptionalToJson(s, v)
    case VectorS(_, _) => VectorToJson(s, v)
    case StructS(_) => StructToJson(s, v)
    case VariantS(_) => VariantToJson(s, v)
    case FlatMapS(_, _) => FlatMapToJson(s, v)
    case FlatSetS(_) => FlatSetToJson(s, v)
  }

  /** `fromJSON`. */
  function FromJson(s: Schema, j: Value): (r: Result<Value>)
    decreases s, 3, 0
  {
    match s
    case IntS(k) => IntFromJson(k, j)
    case BoolS => Ok(j)
    case BytesS(size) => BytesFromJson(size, j)
    case StringS => Ok(j)
    case VoidS => Err(Fail(Unserializable))
    case OptionalS(_) => OptionalFromJson(s, j)
    case VectorS(_, _) => VectorFromJson(s, j)
    case StructS(_) => StructFromJson(s, j)
    case VariantS(_) => VariantFromJson(s, j)
    case FlatMapS(_, _) => FlatMapFromJson(s, j)
    case FlatSetS(_) => FlatSetFromJson(s, j)
  }

  /** `readFromBuffer`: the decoded value and the offset after it, which never moves backwards. */
  function Decode(s: Schema, buf: seq<byte>, off: nat): (r: Result<(Value, nat)>)
    ensures r.Ok? ==> off <= r.value.1 && (off <= |buf| ==> r.value.1 <= |buf|)
    decreases s, 3, 0
  {
    match s
    case IntS(k) => IntRead(k, buf, off)
    case BoolS => BoolRead(buf, off)
    case BytesS(size) => BytesRead(size, buf, off)
    case StringS => StringRead(buf, off)
    case VoidS => Err(Fail(Unserializable))
    case OptionalS(_) => OptionalRead(s, buf, off)
    case VectorS(_, _) => VectorRead(s, buf, off)
    case StructS(_) => StructRead(s, buf, off)
    case VariantS(_) => VariantRead(s, buf, off)
    case FlatMapS(_, _) => FlatMapRead(s, buf, off)
    case FlatSetS(_) => FlatSetRead(s, buf, off)
  }

  /*
   * Each operation on a combinator is that combinator's own function (the
   * dispatch on the schema, stated once per combinator and operation).
   */

  lemma EncodesAsOptional(s: Schema, v: Value)
    requires s.OptionalS?
    ensures Encode(s, v) == OptionalAppend(s, v)
  {
    EncodeOfResult(OptionalAppend(s, v));
  }

  lemma DecodesAsOptional(s: Schema, buf: seq<byte>, off: nat)
    requires s.OptionalS?
    ensures Decode(s, buf, off) == OptionalRead(s, buf, off)
  {
  }

  lemma JsonAsOptional(s: Schema, v: Value)
    requires s.OptionalS?
    ensures ToJson(s, v) == OptionalToJson(s, v) && FromJson(s, v) == OptionalFromJson(s, v)
  {
  }

  lemma EncodesAsVector(s: Schema, v: Value)
    requires s.VectorS?
    ensures Encode(s, v) == VectorAppend(s, v)
  {
    EncodeOfResult(VectorAppend(s, v));
  }

  lemma DecodesAsVector(s: Schema, buf: seq<byte>, off: nat)
    requires s.VectorS?
    ensures Decode(s, buf, off) == VectorRead(s, buf, off)
  {
  }

  lemma JsonAsVector(s: Schema, v: Value)
    requires s.VectorS?
    ensures ToJson(s, v) == VectorToJson(s, v) && FromJson(s, v) == VectorFromJson(s, v)
  {
  }

  lemma EncodesAsStruct(s: Schema, v: Value)
    requires s.StructS?
    ensures Append(s, v) == StructAppend(s, v)
  {
  }

  lemma DecodesAsStruct(s: Schema, buf: seq<byte>, off: nat)
    requires s.StructS?
    ensures Decode(s, buf, off) == StructRead(s, buf, off)
  {
  }

  lemma JsonAsStruct(s: Schema, v: Value)
    requires s.StructS?
    ensures ToJson(s, v) == StructToJson(s, v) && FromJson(s, v) == StructFromJson(s, v)
  {
  }

  lemma EncodesAsVariant(s: Schema, v: Value)
    requires s.VariantS?
    ensures Encode(s, v) == VariantAppend(s, v)
  {
    EncodeOfResult(VariantAppend(s, v));
  }

  lemma DecodesAsVariant(s: Schema, buf: seq<byte>, off: nat)
    requires s.VariantS?
    ensures Decode(s, buf, off) == VariantRead(s, buf, off)
  {
  }

  lemma JsonAsVariant(s: Schema, v: Value)
    requires s.VariantS?
    ensures ToJson(s, v) == VariantToJson(s, v) && FromJson(s, v) == VariantFromJson(s, v)
  {
  }

  lemma EncodesAsFlatMap(s: Schema, v: Value)
    requires s.FlatMapS?
    ensures Encode(s, v) == FlatMapAppend(s, v)
  {
    EncodeOfResult(FlatMapAppend(s, v));
  }

  lemma DecodesAsFlatMap(s: Schema, buf: seq<byte>, off: nat)
    requires s.FlatMapS?
    ensures Decode(s, buf, off) == FlatMapRead(s, buf, off)
  {
  }

  lemma JsonAsFlatMap(s: Schema, v: Value)
    requires s.FlatMapS?
    ensures ToJson(s, v) == FlatMapToJson(s, v) && FromJson(s, v) == FlatMapFromJson(s, v)
  {
  }

  lemma EncodesAsFlatSet(s: Schema, v: Value)
    requires s.FlatSetS?
    ensures Encode(s, v) == FlatSetAppend(s, v)
  {
    EncodeOfResult(FlatSetAppend(s, v));
  }

  lemma DecodesAsFlatSet(s: Schema, buf: seq<byte>, off: nat)
    requires s.FlatSetS?
    ensures Decode(s, buf, off) == FlatSetRead(s, buf, off)
  {
  }

  lemma JsonAsFlatSet(s: Schema, v: Value)
    requires s.FlatSetS?
    ensures ToJson(s, v) == FlatSetToJson(s, v) && FromJson(s, v) == FlatSetFromJson(s, v)
  {
  }

  lemma EncodeOfResult(r: Result<seq<byte>>)
    ensures var w := FromResult(r); (if w.failure.Some? then Err(w.failure.value) else Ok(w.bytes)) == r
  {
  }

  /* ---------------------------------------------------------------------- */
  /* optional                                                               */
  /* ---------------------------------------------------------------------- */

  /** The flag false for an absent value; otherwise the flag true and the inner serialization. */
  function OptionalAppend(p: Schema, v: Value): (r: Result<seq<byte>>)
    requires p.OptionalS?
    decreases p, 2, 0
  {
    if IsAbsent(v) then Ok(BoolBytes(Bool(false)))
    else
      var e :- Prefixed(OptionalSeg, Encode(p.inner, v));
      Ok(BoolBytes(Bool(true)) + e)
  }

  function OptionalToJson(p: Schema, v: Value): (r: Result<Value>)
    requires p.OptionalS?
    decreases p, 2, 0
  {
    if IsAbsent(v) then Ok(Null) else Prefixed(OptionalSeg, ToJson(p.inner, v))
  }

  function OptionalFromJson(p: Schema, j: Value): (r: Result<Value>)
    requires p.OptionalS?
    decreases p, 2, 0
  {
    if IsAbsent(j) then Ok(Null) else Prefixed(OptionalSeg, FromJson(p.inner, j))
  }

  /** The flag, read by the bool codec; null after a false flag, the inner decode after a true one. */
  function OptionalRead(p: Schema, buf: seq<byte>, off: nat): (r: Result<(Value, nat)>)
    requires p.OptionalS?
    ensures r.Ok? ==> off <= r.value.1 && (off <= |buf| ==> r.value.1 <= |buf|)
    decreases p, 2, 0
  {
    var (flag, valueOffset) :- Prefixed(OptionalSeg, BoolRead(buf, off));
    if !Truthy(flag) then Ok((Null, valueOffset))
    else Prefixed(OptionalSeg, Decode(p.inner, buf, valueOffset))
  }

  /* ---------------------------------------------------------------------- */
  /* vector                                                                 */
  /* ---------------------------------------------------------------------- */

  /** Every element serialized first; then the count unless the size is fixed, then the elements. */
  function VectorAppend(p: Schema, v: Value): (r: Result<seq<byte>>)
    requires p.VectorS?
    decreases p, 2, 0
  {
    if !v.Arr? then Err(Fail(NotOfType))
    else if p.size.Some? && |v.items| != p.size.value then Err(Fail(VectorInvalidSize))
    else
      var parts :- EncodeItems(p, v.items, 0, []);
      var count :- if p.size.None? then IntAppend(VarInt32, Num(|v.items|)) else Ok([]);
      Ok(count + Concat(parts))
  }

  /** vector's `value.map((e, i) => serialize(e))`, from element `i` on, after `acc`. */
  function EncodeItems(p: Schema, items: seq<Value>, i: nat, acc: seq<seq<byte>>): (r: Result<seq<seq<byte>>>)
    requires p.VectorS? && i <= |items|
    ensures r.Ok? <==> forall j :: i <= j < |items| ==> Encode(p.elem, items[j]).Ok?
    ensures r.Ok? ==> |r.value| == |acc| + |items| - i && r.value[..|acc|] == acc
    ensures r.Ok? ==> forall j :: i <= j < |items| ==> r.value[|acc| + j - i] == Encode(p.elem, items[j]).value
    decreases p, 0, |items| - i
  {
    if i == |items| then Ok(acc)
    else
      var e :- Prefixed(VectorAt(i), Encode(p.elem, items[i]));
      var r := EncodeItems(p, items, i + 1, acc + [e]);
      assert r.Ok? ==> r.value[|acc|] == e && (acc + [e])[..|acc|] == acc;
      r
  }

  function VectorToJson(p: Schema, v: Value): (r: Result<Value>)
    requires p.VectorS?
    decreases p, 2, 0
  {
    if !v.Arr? then Err(Fail(NotOfType))
    else if p.size.Some? && |v.items| != p.size.value then Err(Fail(VectorInvalidSize))
    else
      var js :- ItemsToJson(p, v.items, 0, []);
      Ok(Arr(js))
  }

  /** vector's `value.map(toJSON)`, from element `i` on, after `acc`. */
  function ItemsToJson(p: Schema, items: seq<Value>, i: nat, acc: seq<Value>): (r: Result<seq<Value>>)
    requires p.VectorS? && i <= |items|
    ensures r.Ok? <==> forall j :: i <= j < |items| ==> ToJson(p.elem, items[j]).Ok?
    ensures r.Ok? ==> |r.value| == |acc| + |items| - i && r.value[..|acc|] == acc
    ensures r.Ok? ==> forall j :: i <= j < |items| ==> r.value[|acc| + j - i] == ToJson(p.elem, items[j]).value
    decreases p, 0, |items| - i
  {
    if i == |items| then Ok(acc)
    else
      var j :- Prefixed(VectorAt(i), ToJson(p.elem, items[i]));
      var r := ItemsToJson(p, items, i + 1, acc + [j]);
      if r.Ok? then Extended(acc, j, r.value); r else r
  }

  function VectorFromJson(p: Schema, j: Value): (r: Result<Value>)
    requires p.VectorS?
    decreases p, 2, 0
  {
    if !j.Arr? then Err(Fail(NotOfType))
    else if p.size.Some? && |j.items| != p.size.value then Err(Fail(VectorInvalidSize))
    else
      var vs :- ItemsFromJson(p, j.items, 0, []);
      Ok(Arr(vs))
  }

  /** vector's `value.map(fromJSON)`, from element `i` on, after `acc`. */
  function ItemsFromJson(p: Schema, items: seq<Value>, i: nat, acc: seq<Value>): (r: Result<seq<Value>>)
    requires p.VectorS? && i <= |items|
    ensures r.Ok? <==> forall j :: i <= j < |items| ==> FromJson(p.elem, items[j]).Ok?
    ensures r.Ok? ==> |r.value| == |acc| + |items| - i && r.value[..|acc|] == acc
    ensures r.Ok? ==> forall j :: i <= j < |items| ==> r.value[|acc| + j - i] == FromJson(p.elem, items[j]).value
    decreases p, 0, |items| - i
  {
    if i == |items| then Ok(acc)
    else
      var x :- Prefixed(VectorAt(i), FromJson(p.elem, items[i]));
      var r := ItemsFromJson(p, items, i + 1, acc + [x]);
      assert r.Ok? ==> r.value[|acc|] == x && (acc + [x])[..|acc|] == acc;
      r
  }

  /** The count (fixed, or a varint32 read first), then that many elements. */
  function VectorRead(p: Schema, buf: seq<byte>, off: nat): (r: Result<(Value, nat)>)
    requires p.VectorS?
    ensures r.Ok? ==> off <= r.value.1 && (off <= |buf| ==> r.value.1 <= |buf|)
    decreases p, 2, 0
  {
    var (count, start) :- Count(p.size, buf, off);
    var (items, end) :- DecodeItems(p, buf, start, count, 0, []);
    Ok((Arr(items), end))
  }

  /** vector's element count: the fixed size, or a varint32 read first. */
  function Count(size: Option<int>, buf: seq<byte>, off: nat): (r: Result<(int, nat)>)
    ensures size.Some? ==> r == Ok((size.value, off))
    ensures size.None? ==> (r.Ok? <==> IntRead(VarInt32, buf, off).Ok?)
    ensures size.None? && r.Ok? ==> r.value == (IntRead(VarInt32, buf, off).value.0.n, IntRead(VarInt32, buf, off).value.1)
    ensures r.Ok? ==> off <= r.value.1 && (off <= |buf| ==> r.value.1 <= |buf|)
  {
    if size.Some? then Ok((size.value, off))
    else
      var (c, o) :- IntRead(VarInt32, buf, off);
      Ok((c.n, o))
  }

  /** vector's decode loop: elements `i` to `count - 1`, pushed after `acc`. */
  function DecodeItems(p: Schema, buf: seq<byte>, off: nat, count: int, i: nat, acc: seq<Value>): (r: Result<(seq<Value>, nat)>)
    requires p.VectorS?
    ensures r.Ok? ==> off <= r.value.1 && (off <= |buf| ==> r.value.1 <= |buf|)
    ensures r.Ok? ==> |r.value.0| == |acc| + (if i < count then count - i else 0)
    decreases p, 0, count - i
  {
    if i >= count then Ok((acc, off))
    else
      var (x, o) :- Prefixed(VectorAt(i), Decode(p.elem, buf, off));
      DecodeItems(p, buf, o, count, i + 1, acc + [x])
  }

  /* ---------------------------------------------------------------------- */
  /* struct                                                                 */
  /* ---------------------------------------------------------------------- */

  /** An object's fields, in the object's own key order. */
  function StructAppend(p: Schema, v: Value): (w: Written)
    requires p.StructS?
    decreases p, 2, 0
  {
    if !v.Obj? then Written([], Some(Fail(NotOfType))) else AppendFields(p, v.fields, 0, [])
  }

  /**
   * struct's loop over the input's keys from position `i`, after `acc` was
   * written: each field appends directly to the buffer, so a failure leaves
   * the fields before it written.
   */
  function AppendFields(p: Schema, fs: seq<(string, Value)>, i: nat, acc: seq<byte>): (w: Written)
    requires p.StructS? && i <= |fs|
    ensures |acc| <= |w.bytes| && w.bytes[..|acc|] == acc
    decreases p, 0, |fs| - i
  {
    if i == |fs| then Written(acc, None)
    else
      var key := fs[i].0;
      if FieldIndex(p.fields, key) < 0 then Written(acc, Some(Error(NoCodec, [StructField(key)])))
      else
        var w := Append(FieldCodec(p, key), fs[i].1);
        if w.failure.Some? then Written(acc + w.bytes, Some(Prefix(StructField(key), w.failure.value)))
        else
          var r := AppendFields(p, fs, i + 1, acc + w.bytes);
          assert (acc + w.bytes)[..|acc|] == acc;
          r
  }

  function StructToJson(p: Schema, v: Value): (r: Result<Value>)
    requires p.StructS?
    decreases p, 2, 0
  {
    if !v.Obj? then Err(Fail(NotOfType))
    else
      var fs :- FieldsToJson(p, v.fields, 0, []);
      Ok(Obj(fs))
  }

  /** struct's `toJSON` loop over the input's keys, from position `i` on, after `acc`. */
  function FieldsToJson(p: Schema, fs: seq<(string, Value)>, i: nat, acc: seq<(string, Value)>): (r: Result<seq<(string, Value)>>)
    requires p.StructS? && i <= |fs|
    ensures r.Ok? ==> |r.value| == |acc| + |fs| - i && r.value[..|acc|] == acc
    ensures r.Ok? ==> forall j :: i <= j < |fs| ==> r.value[|acc| + j - i].0 == fs[j].0
    decreases p, 0, |fs| - i
  {
    if i == |fs| then Ok(acc)
    else
      var key := fs[i].0;
      if FieldIndex(p.fields, key) < 0 then Err(Error(NoCodec, [StructField(key)]))
      else
        var j :- Prefixed(StructField(key), ToJson(FieldCodec(p, key), fs[i].1));
        var r := FieldsToJson(p, fs, i + 1, acc + [(key, j)]);
        assert r.Ok? ==> r.value[|acc|] == (key, j) && (acc + [(key, j)])[..|acc|] == acc;
        r
  }

  function StructFromJson(p: Schema, j: Value): (r: Result<Value>)
    requires p.StructS?
    decreases p, 2, 0
  {
    if !j.Obj? then Err(Fail(NotOfType))
    else
      var fs :- FieldsFromJson(p, j.fields, 0, []);
      Ok(Obj(fs))
  }

  /** struct's `fromJSON` loop over the input's keys, from position `i` on, after `acc`. */
  function FieldsFromJson(p: Schema, fs: seq<(string, Value)>, i: nat, acc: seq<(string, Value)>): (r: Result<seq<(string, Value)>>)
    requires p.StructS? && i <= |fs|
    ensures r.Ok? ==> |r.value| == |acc| + |fs| - i && r.value[..|acc|] == acc
    ensures r.Ok? ==> forall j :: i <= j < |fs| ==> r.value[|acc| + j - i].0 == fs[j].0
    decreases p, 0, |fs| - i
  {
    if i == |fs| then Ok(acc)
    else
      var key := fs[i].0;
      if FieldIndex(p.fields, key) < 0 then Err(Error(NoCodec, [StructField(key)]))
      else
        var x :- Prefixed(StructField(key), FromJson(FieldCodec(p, key), fs[i].1));
        var r := FieldsFromJson(p, fs, i + 1, acc + [(key, x)]);
        assert r.Ok? ==> r.value[|acc|] == (key, x) && (acc + [(key, x)])[..|acc|] == acc;
        r
  }

  /** The declared fields, in declaration order. */
  function StructRead(p: Schema, buf: seq<byte>, off: nat): (r: Result<(Value, nat)>)
    requires p.StructS?
    ensures r.Ok? ==> off <= r.value.1 && (off <= |buf| ==> r.value.1 <= |buf|)
    decreases p, 2, 0
  {
    var (fs, end) :- DecodeFields(p, buf, off, 0, []);
    Ok((Obj(fs), end))
  }

  /** struct's decode loop over the declared fields from `i`, after `acc`. */
  function DecodeFields(p: Schema, buf: seq<byte>, off: nat, i: nat, acc: seq<(string, Value)>): (r: Result<(seq<(string, Value)>, nat)>)
    requires p.StructS? && i <= |p.fields|
    ensures r.Ok? ==> off <= r.value.1 && (off <= |buf| ==> r.value.1 <= |buf|)
    ensures r.Ok? ==> |r.value.0| == |acc| + |p.fields| - i && r.value.0[..|acc|] == acc
    ensures r.Ok? ==> forall j :: i <= j < |p.fields| ==> r.value.0[|acc| + j - i].0 == p.fields[j].0
    decreases p, 0, |p.fields| - i
  {
    if i == |p.fields| then Ok((acc, off))
    else
      assert p.fields[i] in p.fields;
      var name := p.fields[i].0;
      var (x, o) :- Prefixed(StructField(name), Decode(p.fields[i].1, buf, off));
      var r := DecodeFields(p, buf, o, i + 1, acc + [(name, x)]);
      assert r.Ok? ==> (acc + [(name, x)])[..|acc|] == acc;
      r
  }

  /* ---------------------------------------------------------------------- */
  /* variant                                                                */
  /* ---------------------------------------------------------------------- */

  /** The payload serialized first, then the varint32 tag and the payload. */
  function VariantAppend(p: Schema, v: Value): (r: Result<seq<byte>>)
    requires p.VariantS?
    decreases p, 2, 0
  {
    var n :- Tag(v);
    var i :- CheckTag(p.alts, n);
    var payload :- Prefixed(VariantAt(i), Encode(p.alts[i], Property(v, 1)));
    var tag :- IntAppend(VarInt32, Num(i));
    Ok(tag + payload)
  }

  function VariantToJson(p: Schema, v: Value): (r: Result<Value>)
    requires p.VariantS?
    decreases p, 2, 0
  {
    var n :- Tag(v);
    var i :- CheckTag(p.alts, n);
    var j :- Prefixed(VariantAt(i), ToJson(p.alts[i], Property(v, 1)));
    Ok(Arr([Num(i), j]))
  }

  function VariantFromJson(p: Schema, j: Value): (r: Result<Value>)
    requires p.VariantS?
    decreases p, 2, 0
  {
    var n :- Tag(j);
    var i :- CheckTag(p.alts, n);
    var x :- Prefixed(VariantAt(i), FromJson(p.alts[i], Property(j, 1)));
    Ok(Arr([Num(i), x]))
  }

  /** The varint32 tag, then the payload of that alternative. */
  function VariantRead(p: Schema, buf: seq<byte>, off: nat): (r: Result<(Value, nat)>)
    requires p.VariantS?
    ensures r.Ok? ==> off <= r.value.1 && (off <= |buf| ==> r.value.1 <= |buf|)
    decreases p, 2, 0
  {
    var (t, varOffset) :- Prefixed(VariantAt(-1), IntRead(VarInt32, buf, off));
    var i :- CheckTag(p.alts, t.n);
    var (x, end) :- Prefixed(VariantAt(i), Decode(p.alts[i], buf, varOffset));
    Ok((Arr([Num(i), x]), end))
  }

  /* ---------------------------------------------------------------------- */
  /* flat_map                                                               */
  /* ---------------------------------------------------------------------- */

  /** The count of the prepared entries, then each one's key bytes and value bytes. */
  function FlatMapAppend(p: Schema, v: Value): (r: Result<seq<byte>>)
    requires p.FlatMapS?
    decreases p, 2, 0
  {
    var entries :- PrepareMap(p, v);
    var count :- IntAppend(VarInt32, Num(|entries|));
    Ok(count + EntryBytes(entries))
  }

  /**
   * `_prepareInput`: the input as a map, each entry's key then value
   * serialized, rejected when two serialized keys are equal, and sorted by
   * serialized key.
   */
  function PrepareMap(p: Schema, v: Value): (r: Result<seq<Entry>>)
    requires p.FlatMapS?
    decreases p, 1, 0
  {
    var m :- InputMap(v);
    var entries :- SerializeEntries(p, m, 0, []);
    if !Distinct(KeysOf(entries)) then Err(Fail(MapKeyDuplicates))
    else Ok(InsertionSort(entries, KeyOf))
  }

  /** `[...map.entries()].map(...)` of `_prepareInput`, from entry `i` on, after `acc`. */
  function SerializeEntries(p: Schema, m: seq<(Value, Value)>, i: nat, acc: seq<Entry>): (r: Result<seq<Entry>>)
    requires p.FlatMapS? && i <= |m|
    ensures r.Ok? <==> forall j :: i <= j < |m| ==> Encode(p.key, m[j].0).Ok? && Encode(p.value, m[j].1).Ok?
    ensures r.Ok? ==> |r.value| == |acc| + |m| - i && r.value[..|acc|] == acc
    ensures r.Ok? ==> forall j :: i <= j < |m| ==>
              r.value[|acc| + j - i] == Entry(m[j].0, m[j].1, Encode(p.key, m[j].0).value, Encode(p.value, m[j].1).value)
    decreases p, 0, |m| - i
  {
    if i == |m| then Ok(acc)
    else
      var seg := EntrySeg(m[i].0, i);
      var kb :- Prefixed(seg, Encode(p.key, m[i].0));
      var vb :- Prefixed(seg, Encode(p.value, m[i].1));
      var e := Entry(m[i].0, m[i].1, kb, vb);
      var r := SerializeEntries(p, m, i + 1, acc + [e]);
      assert r.Ok? ==> r.value[|acc|] == e && (acc + [e])[..|acc|] == acc;
      r
  }

  /** One `[keyJSON, valueJSON]` pair per prepared entry, in the prepared order. */
  function FlatMapToJson(p: Schema, v: Value): (r: Result<Value>)
    requires p.FlatMapS?
    decreases p, 2, 0
  {
    var entries :- PrepareMap(p, v);
    var pairs :- PairsToJson(p, entries, 0, []);
    Ok(Arr(pairs))
  }

  /** flat_map's `entries.map(...)` in `toJSON`, from entry `i` on, after `acc`. */
  function PairsToJson(p: Schema, es: seq<Entry>, i: nat, acc: seq<Value>): (r: Result<seq<Value>>)
    requires p.FlatMapS? && i <= |es|
    ensures r.Ok? ==> |r.value| == |acc| + |es| - i && r.value[..|acc|] == acc
    decreases p, 0, |es| - i
  {
    if i == |es| then Ok(acc)
    else
      var seg := EntrySeg(es[i].key, i);
      var kj :- Prefixed(seg, ToJson(p.key, es[i].key));
      var vj :- Prefixed(seg, ToJson(p.value, es[i].value));
      var r := PairsToJson(p, es, i + 1, acc + [Arr([kj, vj])]);
      assert r.Ok? ==> (acc + [Arr([kj, vj])])[..|acc|] == acc;
      r
  }

  /** The pairs converted into a map, which must then pass `_prepareInput`. */
  function FlatMapFromJson(p: Schema, j: Value): (r: Result<Value>)
    requires p.FlatMapS?
    decreases p, 2, 0
  {
    if !j.Arr? then Err(Fail(NotOfType))
    else
      var m :- PairsFromJson(p, j.items, 0, []);
      var _ :- PrepareMap(p, MapOf(m));
      Ok(MapOf(m))
  }

  /** flat_map's `fromJSON` loop from pair `i` on: both halves converted, then `result.set`. */
  function PairsFromJson(p: Schema, items: seq<Value>, i: nat, acc: seq<(Value, Value)>): (r: Result<seq<(Value, Value)>>)
    requires p.FlatMapS? && i <= |items|
    ensures DistinctKeys(acc) && r.Ok? ==> DistinctKeys(r.value)
    decreases p, 0, |items| - i
  {
    if i == |items| then Ok(acc)
    else
      var kj :- Item(items[i], 0);
      var k :- Prefixed(EntrySeg(kj, i), FromJson(p.key, kj));
      var vj := Property(items[i], 1);
      var x :- Prefixed(EntrySeg(vj, i), FromJson(p.value, vj));
      PairsFromJson(p, items, i + 1, MapSet(acc, k, x))
  }

  /** The varint32 count, then that many key-value pairs set into a map, which must then pass `_prepareInput`. */
  function FlatMapRead(p: Schema, buf: seq<byte>, off: nat): (r: Result<(Value, nat)>)
    requires p.FlatMapS?
    ensures r.Ok? ==> off <= r.value.1 && (off <= |buf| ==> r.value.1 <= |buf|)
    decreases p, 2, 0
  {
    var (c, start) :- Prefixed(MapAt(-1), IntRead(VarInt32, buf, off));
    var (m, end) :- DecodePairs(p, buf, start, c.n, 0, []);
    var _ :- PrepareMap(p, MapOf(m));
    Ok((MapOf(m), end))
  }

  /** flat_map's decode loop from pair `i`: key, then value, then `result.set`. */
  function DecodePairs(p: Schema, buf: seq<byte>, off: nat, count: int, i: nat, acc: seq<(Value, Value)>): (r: Result<(seq<(Value, Value)>, nat)>)
    requires p.FlatMapS?
    ensures r.Ok? ==> off <= r.value.1 && (off <= |buf| ==> r.value.1 <= |buf|)
    decreases p, 0, count - i
  {
    if i >= count then Ok((acc, off))
    else
      var (k, valueOffset) :- Prefixed(MapAt(i), Decode(p.key, buf, off));
      var (x, o) :- Prefixed(MapAt(i), Decode(p.value, buf, valueOffset));
      DecodePairs(p, buf, o, count, i + 1, MapSet(acc, k, x))
  }

  /* ---------------------------------------------------------------------- */
  /* flat_set                                                               */
  /* ---------------------------------------------------------------------- */

  /** The elements' serializations in ascending byte order, with no count. */
  function FlatSetAppend(p: Schema, v: Value): (r: Result<seq<byte>>)
    requires p.FlatSetS?
    decreases p, 2, 0
  {
    var parts :- SetSerialize(p, v);
    Ok(Concat(InsertionSort(parts, Self)))
  }

  /** flat_set's `_toHex`: every element serialized, rejected when two serializations are equal. */
  function SetSerialize(p: Schema, v: Value): (r: Result<seq<seq<byte>>>)
    requires p.FlatSetS?
    decreases p, 1, 0
  {
    var elems :- Elements(v);
    var parts :- SerializeElems(p, elems, 0, []);
    if !Distinct(parts) then Err(Fail(SetDuplicates)) else Ok(parts)
  }

  /** `value.map((e, i) => serialize(e))` of `_toHex`, from element `i` on, after `acc`. */
  function SerializeElems(p: Schema, elems: seq<Value>, i: nat, acc: seq<seq<byte>>): (r: Result<seq<seq<byte>>>)
    requires p.FlatSetS? && i <= |elems|
    ensures r.Ok? <==> forall j :: i <= j < |elems| ==> Encode(p.elem, elems[j]).Ok?
    ensures r.Ok? ==> |r.value| == |acc| + |elems| - i && r.value[..|acc|] == acc
    ensures r.Ok? ==> forall j :: i <= j < |elems| ==> r.value[|acc| + j - i] == Encode(p.elem, elems[j]).value
    decreases p, 0, |elems| - i
  {
    if i == |elems| then Ok(acc)
    else
      var e :- Prefixed(SetAt(i), Encode(p.elem, elems[i]));
      var r := SerializeElems(p, elems, i + 1, acc + [e]);
      assert r.Ok? ==> r.value[|acc|] == e && (acc + [e])[..|acc|] == acc;
      r
  }

  /** The elements' JSON, ordered by their serializations. */
  function FlatSetToJson(p: Schema, v: Value): (r: Result<Value>)
    requires p.FlatSetS?
    decreases p, 2, 0
  {
    var elems :- Elements(v);
    var parts :- SetSerialize(p, v);
    var items := InsertionSort(Zip(parts, elems), ItemKey);
    var js :- ElemsToJson(p, items, 0, []);
    Ok(Arr(js))
  }

  /** flat_set's `items.map(...)` in `toJSON`: each element's JSON, failures cite its original position. */
  function ElemsToJson(p: Schema, items: seq<SetItem>, i: nat, acc: seq<Value>): (r: Result<seq<Value>>)
    requires p.FlatSetS? && i <= |items|
    ensures r.Ok? ==> |r.value| == |acc| + |items| - i && r.value[..|acc|] == acc
    decreases p, 0, |items| - i
  {
    if i == |items| then Ok(acc)
    else
      var j :- Prefixed(SetAt(items[i].index), ToJson(p.elem, items[i].element));
      var r := ElemsToJson(p, items, i + 1, acc + [j]);
      assert r.Ok? ==> (acc + [j])[..|acc|] == acc;
      r
  }

  /** Every element converted; the serializations must be distinct; the result is a Set. */
  function FlatSetFromJson(p: Schema, j: Value): (r: Result<Value>)
    requires p.FlatSetS?
    decreases p, 2, 0
  {
    if !j.Arr? then Err(Fail(NotOfType))
    else
      var arr :- ElemsFromJson(p, j.items, 0, []);
      var _ :- SetSerialize(p, Arr(arr));
      Ok(SetOf(NewSet(arr)))
  }

  /** flat_set's `value.map(fromJSON)`, from element `i` on, after `acc`. */
  function ElemsFromJson(p: Schema, items: seq<Value>, i: nat, acc: seq<Value>): (r: Result<seq<Value>>)
    requires p.FlatSetS? && i <= |items|
    ensures r.Ok? ==> |r.value| == |acc| + |items| - i && r.value[..|acc|] == acc
    decreases p, 0, |items| - i
  {
    if i == |items| then Ok(acc)
    else
      var x :- Prefixed(SetAt(i), FromJson(p.elem, items[i]));
      var r := ElemsFromJson(p, items, i + 1, acc + [x]);
      assert r.Ok? ==> (acc + [x])[..|acc|] == acc;
      r
  }

  /** A varint32 count, then that many elements, each added with no check. */
  function FlatSetRead(p: Schema, buf: seq<byte>, off: nat): (r: Result<(Value, nat)>)
    requires p.FlatSetS?
    ensures r.Ok? ==> off <= r.value.1 && (off <= |buf| ==> r.value.1 <= |buf|)
    decreases p, 2, 0
  {
    var (c, start) :- IntRead(VarInt32, buf, off);
    var (xs, end) :- DecodeSetItems(p, buf, start, c.n, 0, []);
    Ok((SetOf(xs), end))
  }

  /** flat_set's decode loop from element `i`: each one `add`ed, with no check. */
  function DecodeSetItems(p: Schema, buf: seq<byte>, off: nat, count: int, i: nat, acc: seq<Value>): (r: Result<(seq<Value>, nat)>)
    requires p.FlatSetS?
    ensures r.Ok? ==> off <= r.value.1 && (off <= |buf| ==> r.value.1 <= |buf|)
    decreases p, 0, count - i
  {
    if i >= count then Ok((acc, off))
    else
      var (x, o) :- Prefixed(SetAt(i), Decode(p.elem, buf, off));
      DecodeSetItems(p, buf, o, count, i + 1, SetAdd(acc, x))
  }
}
