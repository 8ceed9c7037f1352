/**
 * What a binary round trip means, and the scalar codecs for which it holds.
 *
 * The combinators' round-trip lemmas (in their own modules) assume this of
 * their element codecs and conclude it of the composite.
 */
module RoundTrip {

  import opened Text
  import opened Errors
  import opened Values
  import opened Ints
  import opened Bools
  import opened Codec

  /**
   * Encoding `v` with `s` succeeds, the bytes decode to `w` wherever they
   * sit in a buffer and the decoder stops right after them, and `w` encodes
   * to the same bytes as `v`.
   */
  ghost predicate Faithful(s: Schema, v: Value, w: Value) {
    Encode(s, v).Ok? && Encode(s, w) == Encode(s, v) && DecodesAt(s, Encode(s, v).value, w)
  }

  /** Wherever `bytes` sit in a buffer, decoding there gives `w` and stops right after them. */
  ghost predicate DecodesAt(s: Schema, bytes: seq<byte>, w: Value) {
    forall buf: seq<byte>, off: nat {:trigger Holds(buf, off, bytes)} ::
      Holds(buf, off, bytes) ==> Decode(s, buf, off) == Ok((w, off + |bytes|))
  }

  /** `bytes` occupy `buf` from `off` on. */
  ghost predicate Holds(buf: seq<byte>, off: nat, bytes: seq<byte>) {
    off + |bytes| <= |buf| && buf[off..off + |bytes|] == bytes
  }

  /** A buffer holding `bytes` at `off` is what comes before, the bytes, and what comes after. */
  lemma Split(buf: seq<byte>, off: nat, bytes: seq<byte>)
    requires Holds(buf, off, bytes)
    ensures buf == buf[..off] + bytes + buf[off + |bytes|..] && |buf[..off]| == off
  {
    assert buf == buf[..off] + buf[off..off + |bytes|] + buf[off + |bytes|..];
  }

  /** Bytes held at `off` that are two parts: the first at `off`, the second right after it. */
  lemma HoldsParts(buf: seq<byte>, off: nat, a: seq<byte>, b: seq<byte>)
    requires Holds(buf, off, a + b)
    ensures Holds(buf, off, a) && Holds(buf, off + |a|, b)
  {
    assert buf[off..off + |a|] == (a + b)[..|a|] == a;
    assert buf[off + |a|..off + |a| + |b|] == (a + b)[|a|..] == b;
  }

  /** Faithful where the encoding sits at `off` in `buf`. */
  lemma FaithfulHolds(s: Schema, v: Value, w: Value, buf: seq<byte>, off: nat)
    requires Faithful(s, v, w) && Holds(buf, off, Encode(s, v).value)
    ensures Decode(s, buf, off) == Ok((w, off + |Encode(s, v).value|))
  {
    assert DecodesAt(s, Encode(s, v).value, w);
  }

  /** DecodesAt where the bytes sit at `off` in `buf`. */
  lemma DecodesHolds(s: Schema, bytes: seq<byte>, w: Value, buf: seq<byte>, off: nat)
    requires DecodesAt(s, bytes, w) && Holds(buf, off, bytes)
    ensures Decode(s, buf, off) == Ok((w, off + |bytes|))
  {
  }

  /** A count written as a varint32 (LEB128) reads back as that number, right after it. */
  lemma CountAt(n: nat, buf: seq<byte>, off: nat)
    requires n <= 0x7FFF_FFFF && Holds(buf, off, Leb128(n))
    ensures IntRead(VarInt32, buf, off) == Ok((Num(n), off + |Leb128(n)|))
  {
    VarintAppendOfCount(n);
    MaxAbsValues();
    Split(buf, off, Leb128(n));
    VarInt32RoundTrip(Num(n), buf[..off], buf[off + |Leb128(n)|..]);
  }

  /** A count written as a varint32 followed by other bytes: the count reads back, the bytes follow it. */
  lemma CountThen(n: nat, e: seq<byte>, buf: seq<byte>, off: nat)
    requires n <= 0x7FFF_FFFF && Holds(buf, off, Leb128(n) + e)
    ensures IntRead(VarInt32, buf, off) == Ok((Num(n), off + |Leb128(n)|))
    ensures Holds(buf, off + |Leb128(n)|, e)
  {
    HoldsParts(buf, off, Leb128(n), e);
    CountAt(n, buf, off);
  }

  /** Faithful at one particular placement of the bytes. */
  lemma FaithfulAt(s: Schema, v: Value, w: Value, pre: seq<byte>, rest: seq<byte>)
    requires Faithful(s, v, w)
    ensures Decode(s, pre + Encode(s, v).value + rest, |pre|) == Ok((w, |pre| + |Encode(s, v).value|))
  {
    var bytes := Encode(s, v).value;
    HoldsBetween(pre, bytes, rest);
    FaithfulHolds(s, v, w, pre + bytes + rest, |pre|);
  }

  lemma HoldsBetween(pre: seq<byte>, bytes: seq<byte>, rest: seq<byte>)
    ensures Holds(pre + bytes + rest, |pre|, bytes)
  {
    var buf := pre + bytes + rest;
    assert buf[|pre|..|pre| + |bytes|] == bytes;
  }

  /** bool: `toJSON` and `fromJSON` hand the value back unchanged, so JSON round-trips it. */
  lemma BoolJson(v: Value)
    ensures ToJson(BoolS, v) == Ok(v) && FromJson(BoolS, v) == Ok(v)
    ensures FromJson(BoolS, ToJson(BoolS, v).value) == Ok(v)
  {
  }

  /** string: likewise the identity in both directions. */
  lemma StringJson(v: Value)
    ensures ToJson(StringS, v) == Ok(v) && FromJson(StringS, v) == Ok(v)
    ensures FromJson(StringS, ToJson(StringS, v).value) == Ok(v)
  {
  }

  /** bool: any value comes back as its truth. */
  lemma BoolFaithful(v: Value)
    ensures Faithful(BoolS, v, Bool(Truthy(v)))
  {
    var bytes := BoolBytes(v);
    forall buf: seq<byte>, off: nat | Holds(buf, off, bytes)
      ensures Decode(BoolS, buf, off) == Ok((Bool(Truthy(v)), off + |bytes|))
    {
      Split(buf, off, bytes);
      BoolRoundTrip(v, buf[..off], buf[off + |bytes|..]);
    }
    assert DecodesAt(BoolS, bytes, Bool(Truthy(v)));
  }

  /** Unsigned integers: a non-negative value the encoder accepts comes back as itself. */
  lemma UnsignedFaithful(k: IntKind, v: Value)
    requires IsUint(k) && IntAppend(k, v).Ok? && ToBigInt(k, v).value >= 0
    ensures Faithful(IntS(k), v, ToJs(k, ToBigInt(k, v).value))
  {
    var n := ToBigInt(k, v).value;
    var w := ToJs(k, n);
    var bytes := IntAppend(k, v).value;
    assert Encode(IntS(k), v) == Ok(bytes);
    MaxAbsValues();
    assert w.Num? ==> n <= 0xFFFF_FFFF;
    SameInteger(k, v, w);
    forall buf: seq<byte>, off: nat | Holds(buf, off, bytes)
      ensures Decode(IntS(k), buf, off) == Ok((w, off + |bytes|))
    {
      UnsignedAt(k, v, buf, off);
    }
    assert DecodesAt(IntS(k), bytes, w);
  }

  lemma UnsignedAt(k: IntKind, v: Value, buf: seq<byte>, off: nat)
    requires IsUint(k) && IntAppend(k, v).Ok? && ToBigInt(k, v).value >= 0
    requires Holds(buf, off, IntAppend(k, v).value)
    ensures Decode(IntS(k), buf, off) == Ok((ToJs(k, ToBigInt(k, v).value), off + |IntAppend(k, v).value|))
  {
    var bytes := IntAppend(k, v).value;
    Split(buf, off, bytes);
    UnsignedRoundTrip(k, v, buf[..off], buf[off + |bytes|..]);
    DecodeInt(k, buf, off);
  }

  lemma DecodeInt(k: IntKind, buf: seq<byte>, off: nat)
    ensures Decode(IntS(k), buf, off) == IntRead(k, buf, off)
  {
  }

  /** A decoded integer is written as the input it came from. */
  lemma SameInteger(k: IntKind, v: Value, w: Value)
    requires ToBigInt(k, v).Ok? && (w.Num? || w.Big?) && w.n == ToBigInt(k, v).value
    requires w.Num? ==> Abs(w.n) <= MAX_SAFE_INTEGER
    ensures Encode(IntS(k), w) == Encode(IntS(k), v)
  {
    assert ToBigInt(k, w) == ToBigInt(k, v);
  }

  /** int64: every value the encoder accepts (magnitude below 2^53 - 1) comes back as that bigint. */
  lemma Int64Faithful(v: Value)
    requires IntAppend(Int64, v).Ok?
    ensures Faithful(IntS(Int64), v, Big(ToBigInt(Int64, v).value))
  {
    var n := ToBigInt(Int64, v).value;
    var bytes := IntAppend(Int64, v).value;
    assert Encode(IntS(Int64), v) == Ok(bytes);
    SameInteger(Int64, v, Big(n));
    forall buf: seq<byte>, off: nat | Holds(buf, off, bytes)
      ensures Decode(IntS(Int64), buf, off) == Ok((Big(n), off + |bytes|))
    {
      Split(buf, off, bytes);
      Int64RoundTrip(v, buf[..off], buf[off + |bytes|..]);
      DecodeInt(Int64, buf, off);
    }
    assert DecodesAt(IntS(Int64), bytes, Big(n));
  }

  /** varint32: every value the encoder accepts (0 to 2^31 - 1) comes back as that number. */
  lemma VarInt32Faithful(v: Value)
    requires IntAppend(VarInt32, v).Ok?
    ensures Faithful(IntS(VarInt32), v, Num(ToBigInt(VarInt32, v).value))
  {
    var n := ToBigInt(VarInt32, v).value;
    var bytes := IntAppend(VarInt32, v).value;
    assert Encode(IntS(VarInt32), v) == Ok(bytes);
    MaxAbsValues();
    SameInteger(VarInt32, v, Num(n));
    forall buf: seq<byte>, off: nat | Holds(buf, off, bytes)
      ensures Decode(IntS(VarInt32), buf, off) == Ok((Num(n), off + |bytes|))
    {
      Split(buf, off, bytes);
      VarInt32RoundTrip(v, buf[..off], buf[off + |bytes|..]);
      DecodeInt(VarInt32, buf, off);
    }
    assert DecodesAt(IntS(VarInt32), bytes, Num(n));
  }
}
