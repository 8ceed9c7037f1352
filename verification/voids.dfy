/**
 * `void_t`: a codec with no values.  Every one of its four operations
 * throws "void: unserializable", whatever it is given.
 */
module Voids {

  import opened Text
  import opened Errors
  import opened Values
  import opened Codec

  /**
   * Serialization, `toJSON`, `fromJSON` and decoding all fail with
   * "unserializable", and `appendToByteBuffer` writes nothing before it
   * fails.
   */
  lemma VoidUnserializable(v: Value, buf: seq<byte>, off: nat)
    ensures Append(VoidS, v).bytes == [] && Append(VoidS, v).failure == Some(Fail(Unserializable))
    ensures Encode(VoidS, v) == Err(Fail(Unserializable))
    ensures ToJson(VoidS, v) == Err(Fail(Unserializable))
    ensures FromJson(VoidS, v) == Err(Fail(Unserializable))
    ensures Decode(VoidS, buf, off) == Err(Fail(Unserializable))
  {
  }
}
