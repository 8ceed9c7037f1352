/**
 * The contract every codec follows, and the two helpers built on it:
 * `serialize` runs `appendToByteBuffer` on a fresh buffer and returns what
 * it wrote; `deserialize` decodes from offset 0 and refuses a buffer with
 * bytes left over after the value.
 */
module Serializer {

  import opened Text
  import opened Errors
  import opened Values
  import opened Ints
  import opened Bools
  import opened ByteStrings
  import opened Strings
  import opened Sink
  import opened Codec
  import opened RoundTrip
  import Optionals
  import Vectors
  import Structs
  import Variants
  import FlatMaps
  import FlatSets

  /** `appendToByteBuffer` of whichever codec the schema names. */
  method AppendTo(s: Schema, v: Value, sink: ByteSink) returns (err: Option<Error>)
    modifies sink
    ensures sink.data == old(sink.data) + Append(s, v).bytes
    ensures err == Append(s, v).failure
  {
    match s
    case IntS(k) =>
      err := AppendInt(k, v, sink);
    case BoolS =>
      AppendBool(v, sink);
      err := None;
    case BytesS(size) =>
      err := AppendBytes(size, v, sink);
    case StringS =>
      err := AppendString(v, sink);
    case VoidS =>
      err := Some(Fail(Unserializable));
    case OptionalS(inner) =>
      err := Optionals.AppendOptional(inner, v, sink);
    case VectorS(_, _) =>
      err := Vectors.AppendVector(s, v, sink);
    case StructS(_) =>
      err := Structs.AppendStruct(s, v, sink);
    case VariantS(_) =>
      err := Variants.AppendVariant(s, v, sink);
    case FlatMapS(_, _) =>
      err := FlatMaps.AppendFlatMap(s, v, sink);
    case FlatSetS(_) =>
      err := FlatSets.AppendFlatSet(s, v, sink);
  }

  /**
   * `serialize`: `appendToByteBuffer` on a fresh, empty buffer; the bytes it
   * wrote, or its failure and no bytes at all.
   */
  method Serialize(s: Schema, v: Value) returns (r: Result<seq<byte>>)
    ensures Append(s, v).failure.None? ==> r == Ok(Append(s, v).bytes)
    ensures Append(s, v).failure.Some? ==> r == Err(Append(s, v).failure.value)
  {
    var sink := new ByteSink();
    var err := AppendTo(s, v, sink);
    if err.Some? {
      return Err(err.value);
    }
    assert sink.data == Append(s, v).bytes by {
      assert [] + Append(s, v).bytes == Append(s, v).bytes;
    }
    return Ok(sink.data);
  }

  /**
   * `deserialize`: the value decoded from offset 0, provided the decoder
   * stopped exactly at the end of the buffer; "excess info" otherwise.
   */
  function Deserialize(s: Schema, buf: seq<byte>): (r: Result<Value>)
  {
    var (res, newOffset) :- Decode(s, buf, 0);
    if newOffset != |buf| then Err(Fail(ExcessInfo)) else Ok(res)
  }

  /**
   * `deserialize` fails as the decoder does, fails with "excess info" when
   * the decoder stops before the end, and otherwise returns the decoded
   * value.
   */
  lemma DeserializeCases(s: Schema, buf: seq<byte>)
    ensures Decode(s, buf, 0).Err? ==> Deserialize(s, buf) == Err(Decode(s, buf, 0).error)
    ensures Decode(s, buf, 0).Ok? && Decode(s, buf, 0).value.1 < |buf| ==> Deserialize(s, buf) == Err(Fail(ExcessInfo))
    ensures Deserialize(s, buf).Ok? <==> Decode(s, buf, 0).Ok? && Decode(s, buf, 0).value.1 == |buf|
    ensures Deserialize(s, buf).Ok? ==> Decode(s, buf, 0) == Ok((Deserialize(s, buf).value, |buf|))
  {
  }

  /**
   * For a codec that round-trips `v` as `w`, deserializing what `serialize`
   * wrote gives `w`, and anything after those bytes is refused as excess.
   */
  lemma DeserializeFaithful(s: Schema, v: Value, w: Value, rest: seq<byte>)
    requires Faithful(s, v, w)
    ensures Deserialize(s, Encode(s, v).value) == Ok(w)
    ensures rest != [] ==> Deserialize(s, Encode(s, v).value + rest) == Err(Fail(ExcessInfo))
  {
    var bytes := Encode(s, v).value;
    FaithfulAt(s, v, w, [], []);
    Surrounded(bytes, []);
    DecodedWhole(s, bytes, w, |bytes|);
    FaithfulAt(s, v, w, [], rest);
    Surrounded(bytes, rest);
    DecodedWhole(s, bytes + rest, w, |bytes|);
  }

  lemma Surrounded(bytes: seq<byte>, rest: seq<byte>)
    ensures [] + bytes + rest == bytes + rest && bytes + [] == bytes
  {
  }

  /** A decode from offset 0 that stops at `n`: the value when `n` is the end, "excess info" before it. */
  lemma DecodedWhole(s: Schema, buf: seq<byte>, w: Value, n: nat)
    requires Decode(s, buf, 0) == Ok((w, n))
    ensures n == |buf| ==> Deserialize(s, buf) == Ok(w)
    ensures n != |buf| ==> Deserialize(s, buf) == Err(Fail(ExcessInfo))
  {
  }

  /** A bool followed by one more byte: the value is read, and then refused as excess. */
  lemma ExcessExample()
    ensures Decode(BoolS, [1, 0], 0) == Ok((Bool(true), 1))
    ensures Deserialize(BoolS, [1, 0]) == Err(Fail(ExcessInfo))
    ensures Deserialize(BoolS, [1]) == Ok(Bool(true))
  {
    assert BoolRead([1, 0], 0) == Ok((Bool(true), 1));
    assert BoolRead([1], 0) == Ok((Bool(true), 1));
  }

  /** void: `serialize` and `deserialize` fail, whatever they are given. */
  lemma VoidHelpers(v: Value, buf: seq<byte>)
    ensures Encode(VoidS, v) == Err(Fail(Unserializable))
    ensures Deserialize(VoidS, buf) == Err(Fail(Unserializable))
  {
  }
}
