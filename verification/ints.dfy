/**
 * The integer codecs: int64, uint8, uint16, uint32, uint64 and varint32.
 *
 * Every integer codec first normalises its input to an unbounded integer and
 * checks its magnitude against the type's bound; fixed-width types are then
 * written little-endian in bits/8 bytes, varint32 as unsigned LEB128.
 * Integers are unbounded here; the JavaScript number/bigint distinction is
 * kept only as the Num/Big tag of the value a codec returns.
 */
module Ints {

  import opened Text
  import opened Errors
  import opened Values
  import opened Sink

  /** `Number.MAX_SAFE_INTEGER`, 2^53 - 1. */
  const MAX_SAFE_INTEGER: int := 0x1F_FFFF_FFFF_FFFF

  function Abs(n: int): nat {
    if n < 0 then -n else n
  }

  function Pow2(n: nat): (r: nat)
    ensures r >= 1
  {
    if n == 0 then 1 else 2 * Pow2(n - 1)
  }

  function Pow256(n: nat): (r: nat)
    ensures r >= 1
  {
    if n == 0 then 1 else 256 * Pow256(n - 1)
  }

  function Pow128(n: nat): (r: nat)
    ensures r >= 1
  {
    if n == 0 then 1 else 128 * Pow128(n - 1)
  }

  lemma Pow2Plus8(m: nat)
    ensures Pow2(m + 8) == 256 * Pow2(m)
  {
    assert Pow2(m + 8) == 2 * Pow2(m + 7);
    assert Pow2(m + 7) == 2 * Pow2(m + 6);
    assert Pow2(m + 6) == 2 * Pow2(m + 5);
    assert Pow2(m + 5) == 2 * Pow2(m + 4);
    assert Pow2(m + 4) == 2 * Pow2(m + 3);
    assert Pow2(m + 3) == 2 * Pow2(m + 2);
    assert Pow2(m + 2) == 2 * Pow2(m + 1);
  }

  lemma {:induction false} Pow2Bytes(n: nat)
    ensures Pow2(8 * n) == Pow256(n)
  {
    if n > 0 {
      Pow2Bytes(n - 1);
      Pow2Plus8(8 * (n - 1));
    }
  }

  /* ---------------------------------------------------------------------- */
  /* The six integer types and what their constructors check                */
  /* ---------------------------------------------------------------------- */

  datatype IntKind = Int64 | UInt8 | UInt16 | UInt32 | UInt64 | VarInt32

  function Bits(k: IntKind): nat {
    match k
    case Int64 => 64
    case UInt8 => 8
    case UInt16 => 16
    case UInt32 => 32
    case UInt64 => 64
    case VarInt32 => 32
  }

  /** The byte count of a fixed-width type, `bits / 8`. */
  function Width(k: IntKind): (r: nat)
    ensures Bits(k) == 8 * r && 0 < r <= 8
  {
    match k
    case Int64 => 8
    case UInt8 => 1
    case UInt16 => 2
    case UInt32 => 4
    case UInt64 => 8
    case VarInt32 => 4
  }

  function IsUint(k: IntKind): bool {
    k.UInt8? || k.UInt16? || k.UInt32? || k.UInt64?
  }

  /** Types backed by a JavaScript number (SafeIntSerializer) rather than a bigint. */
  function IsSafe(k: IntKind): bool {
    k.UInt8? || k.UInt16? || k.UInt32? || k.VarInt32?
  }

  /** `maxAbsValue`: 2^(bits - 1) - 1 for signed types, 2^bits - 1 for unsigned ones. */
  function MaxAbsValue(bits: nat, isUint: bool): int
    requires bits > 0
  {
    Pow2(bits - (if isUint then 0 else 1)) - 1
  }

  function MaxAbs(k: IntKind): nat {
    Pow2(Bits(k) - (if IsUint(k) then 0 else 1)) - 1
  }

  /**
   * The constructor's checks on the bit count, in order; on success, the
   * type's `maxAbsValue`.  `safe` selects the SafeIntSerializer subclass,
   * whose constructor adds the 53-bit limit.
   */
  function CheckBits(bits: int, isUint: bool, safe: bool): (r: Result<int>)
    ensures r.Ok? <==> 0 < bits <= MAX_SAFE_INTEGER && bits % 8 == 0 && (safe ==> bits <= 53)
    ensures bits <= 0 ==> r == Err(Fail(BitsNotPositive))
    ensures 0 < bits <= MAX_SAFE_INTEGER && bits % 8 != 0 ==> r == Err(Fail(InvalidBitsCount))
    ensures r.Ok? ==> r.value + 1 == Pow2(bits - (if isUint then 0 else 1))
  {
    if bits <= 0 || bits > MAX_SAFE_INTEGER then Err(Fail(BitsNotPositive))
    else if bits % 8 != 0 then Err(Fail(InvalidBitsCount))
    else if safe && bits > 53 then Err(Fail(BitsNotSafe))
    else Ok(MaxAbsValue(bits, isUint))
  }

  /** Each exported instance passes its own constructor, with the expected bound. */
  lemma KindsConstruct(k: IntKind)
    ensures CheckBits(Bits(k), IsUint(k), IsSafe(k)) == Ok(MaxAbs(k))
    ensures Bits(k) % 8 == 0 && 0 < Width(k) <= 8
  {
  }

  /** The bounds of the six types, written out. */
  lemma MaxAbsValues()
    ensures MaxAbs(UInt8) == 0xFF && MaxAbs(UInt16) == 0xFFFF && MaxAbs(UInt32) == 0xFFFF_FFFF
    ensures MaxAbs(UInt64) == 0xFFFF_FFFF_FFFF_FFFF && MaxAbs(Int64) == 0x7FFF_FFFF_FFFF_FFFF
    ensures MaxAbs(VarInt32) == 0x7FFF_FFFF
  {
    Pow2Bytes(1);
    Pow2Bytes(2);
    Pow2Bytes(4);
    Pow2Bytes(8);
    assert Pow2(31) * 2 == Pow2(32);
    assert Pow2(63) * 2 == Pow2(64);
  }

  /* ---------------------------------------------------------------------- */
  /* Normalisation and JSON                                                 */
  /* ---------------------------------------------------------------------- */

  /**
   * `BigInt(s)` on a string (StringToBigInt): white space around the literal
   * is ignored and text that is nothing but white space is 0; the literal is
   * decimal digits after an optional `+` or `-`, or a `0x`, `0o` or `0b`
   * literal (either case, no sign).  Anything else throws.
   */
  function ParseBigInt(s: seq<byte>): (r: Result<int>)
    ensures Trim(s) == [] ==> r == Ok(0)
    ensures var t := Trim(s); |t| > 0 && AllDigitsIn(10, t) ==> r == Ok(ValueIn(10, t))
    ensures var t := Trim(s); |t| > 1 && t[0] == 0x2B && AllDigitsIn(10, t[1..]) ==> r == Ok(ValueIn(10, t[1..]))
    ensures var t := Trim(s); |t| > 1 && t[0] == 0x2D && AllDigitsIn(10, t[1..]) ==> r == Ok(-(ValueIn(10, t[1..]) as int))
    ensures var t := Trim(s); |t| > 2 && t[0] == 0x30 && RadixOf(t[1]) > 0 && AllDigitsIn(RadixOf(t[1]), t[2..]) ==>
              r == Ok(ValueIn(RadixOf(t[1]), t[2..]))
    ensures var t := Trim(s);
              r.Ok? <==> t == [] || (|t| > 0 && AllDigitsIn(10, t))
                         || (|t| > 1 && (t[0] == 0x2B || t[0] == 0x2D) && AllDigitsIn(10, t[1..]))
                         || (|t| > 2 && t[0] == 0x30 && RadixOf(t[1]) > 0 && AllDigitsIn(RadixOf(t[1]), t[2..]))
    ensures r.Err? ==> r == Err(Fail(NotAnInteger))
  {
    var t := Trim(s);
    if t == [] then Ok(0)
    else if t[0] == 0x2B || t[0] == 0x2D then
      var ds := t[1..];
      if ds == [] || !AllDigitsIn(10, ds) then Err(Fail(NotAnInteger))
      else if t[0] == 0x2D then Ok(-(ValueIn(10, ds) as int))
      else Ok(ValueIn(10, ds))
    else if |t| > 2 && t[0] == 0x30 && RadixOf(t[1]) > 0 then
      var radix := RadixOf(t[1]);
      if AllDigitsIn(radix, t[2..]) then Ok(ValueIn(radix, t[2..])) else Err(Fail(NotAnInteger))
    else if AllDigitsIn(10, t) then Ok(ValueIn(10, t))
    else Err(Fail(NotAnInteger))
  }

  /** The text `toString()` writes parses back to its integer. */
  lemma ParseDecimalText(s: seq<byte>)
    requires IsDecimal(s)
    ensures ParseBigInt(s) == Ok(ParseDecimal(s))
  {
    DecimalUntrimmed(s);
    if s[0] == 0x2D {
      DecimalDigitsIn(s[1..]);
    } else {
      DecimalDigitsIn(s);
    }
  }

  /** White space before or after the text changes nothing: `BigInt(" 5\n")` is `BigInt("5")`. */
  lemma ParsePadded(c: seq<byte>, s: seq<byte>)
    requires WsChar(c)
    ensures ParseBigInt(c + s) == ParseBigInt(s)
    ensures ParseBigInt(s + c) == ParseBigInt(s)
  {
    TrimLeading(c, s);
    TrimTrailing(s, c);
  }

  /** `" 5 "` and `"+5"` are 5, and `" "` is 0. */
  lemma ParseDecimalExamples()
    ensures ParseBigInt([0x20, 0x35, 0x20]) == Ok(5)
    ensures ParseBigInt([0x20]) == Ok(0)
    ensures ParseBigInt([0x2B, 0x35]) == Ok(5)
  {
    ParsePadded([0x20], [0x35, 0x20]);
    assert [0x20] + [0x35, 0x20] == [0x20, 0x35, 0x20];
    ParsePadded([0x20], [0x35]);
    assert [0x35] + [0x20] == [0x35, 0x20];
    ParseDigit([0x35]);
    assert Trim([0x20]) == TrimStart(TrimEnd([0x20][..0])) == [];
    var plus := [0x2B, 0x35];
    assert Trim(plus) == plus && plus[1..] == [0x35];
  }

  lemma ParseDigit(s: seq<byte>)
    requires s == [0x35]
    ensures ParseBigInt(s) == Ok(5)
  {
    assert TrimEnd(s) == s;
    assert TrimStart(s) == s;
    assert Trim(s) == s;
    assert AllDigitsIn(10, s);
    assert s[..0] == [] && DigitIn(10, s[0]) == 5;
    assert ValueIn(10, s) == 5;
  }

  /** `"0x10"` is 16 and `"0B11"` is 3. */
  lemma ParseRadixExamples()
    ensures ParseBigInt([0x30, 0x78, 0x31, 0x30]) == Ok(16)
    ensures ParseBigInt([0x30, 0x42, 0x31, 0x31]) == Ok(3)
  {
    ParseHex([0x30, 0x78, 0x31, 0x30]);
    ParseBinary([0x30, 0x42, 0x31, 0x31]);
  }

  lemma ParseHex(s: seq<byte>)
    requires s == [0x30, 0x78, 0x31, 0x30]
    ensures ParseBigInt(s) == Ok(16)
  {
    assert TrimEnd(s) == s && TrimStart(s) == s;
    var ds := s[2..];
    assert ds == [0x31, 0x30] && ds[..1] == [0x31] && [0x31][..0] == [];
    assert AllDigitsIn(16, ds) && ValueIn(16, ds) == 16;
  }

  lemma ParseBinary(s: seq<byte>)
    requires s == [0x30, 0x42, 0x31, 0x31]
    ensures ParseBigInt(s) == Ok(3)
  {
    assert TrimEnd(s) == s && TrimStart(s) == s;
    var ds := s[2..];
    assert ds == [0x31, 0x31] && ds[..1] == [0x31] && [0x31][..0] == [];
    assert AllDigitsIn(2, ds) && ValueIn(2, ds) == 3;
  }

  /** `"-0x10"`, `"0x"`, `"1e3"` and `"+"` throw. */
  lemma ParseRejectExamples()
    ensures ParseBigInt([0x2D, 0x30, 0x78, 0x31, 0x30]).Err?
    ensures ParseBigInt([0x30, 0x78]).Err?
    ensures ParseBigInt([0x31, 0x65, 0x33]).Err?
    ensures ParseBigInt([0x2B]).Err?
  {
    RejectSignedHex([0x2D, 0x30, 0x78, 0x31, 0x30]);
    RejectBarePrefix([0x30, 0x78]);
    RejectExponent([0x31, 0x65, 0x33]);
    assert Trim([0x2B]) == [0x2B];
  }

  lemma RejectSignedHex(s: seq<byte>)
    requires s == [0x2D, 0x30, 0x78, 0x31, 0x30]
    ensures ParseBigInt(s).Err?
  {
    assert Trim(s) == s;
    assert s[1..][1] == 0x78;
  }

  lemma RejectBarePrefix(s: seq<byte>)
    requires s == [0x30, 0x78]
    ensures ParseBigInt(s).Err?
  {
    assert Trim(s) == s;
    assert DigitIn(10, s[1]) < 0;
  }

  lemma RejectExponent(s: seq<byte>)
    requires s == [0x31, 0x65, 0x33]
    ensures ParseBigInt(s).Err?
  {
    assert Trim(s) == s;
    assert DigitIn(10, s[1]) < 0;
  }

  /** `_toBigInt`: a number, bigint or string `BigInt` accepts, as an integer whose magnitude fits the type. */
  function ToBigInt(k: IntKind, v: Value): (r: Result<int>)
    ensures r.Ok? ==> Abs(r.value) <= MaxAbs(k)
    ensures r.Ok? ==> v.Num? || v.Big? || v.Str?
    ensures v.Num? && Abs(v.n) > MAX_SAFE_INTEGER ==> r == Err(Fail(LossOfAccuracy(Bits(k), IsUint(k))))
    ensures (v.Num? && Abs(v.n) <= MAX_SAFE_INTEGER) || v.Big? ==>
              r == if Abs(v.n) <= MaxAbs(k) then Ok(v.n) else Err(Fail(Overflow(Bits(k), IsUint(k))))
  {
    var n :- match v
      case Num(n) =>
        if Abs(n) > MAX_SAFE_INTEGER then Err(Fail(LossOfAccuracy(Bits(k), IsUint(k)))) else Ok(n)
      case Big(n) => Ok(n)
      case Str(s) => ParseBigInt(s)
      case _ => Err(Fail(NotOfType));
    if Abs(n) > MaxAbs(k) then Err(Fail(Overflow(Bits(k), IsUint(k)))) else Ok(n)
  }

  /** The bound is on the magnitude, so a value is accepted exactly when its negation is, unsigned types included. */
  lemma ToBigIntSymmetric(k: IntKind, n: int)
    ensures ToBigInt(k, Big(n)).Ok? <==> ToBigInt(k, Big(-n)).Ok?
    ensures ToBigInt(k, Num(n)).Ok? <==> ToBigInt(k, Num(-n)).Ok?
  {
  }

  /** Unsigned types accept negative input: uint8 takes -255. */
  lemma UnsignedAcceptsNegative()
    ensures ToBigInt(UInt8, Num(-255)) == Ok(-255)
    ensures ToBigInt(UInt8, Num(-256)) == Err(Fail(Overflow(8, true)))
  {
    MaxAbsValues();
  }

  /** `_toJS`: a number for the safe types, a bigint otherwise. */
  function ToJs(k: IntKind, n: int): (r: Value)
    ensures r.Num? || r.Big?
    ensures r.n == n && (r.Num? <==> IsSafe(k))
  {
    if IsSafe(k) then Num(n) else Big(n)
  }

  /**
   * `toJSON`: a number for the safe types; for int64 and uint64 a number
   * while the magnitude is at most 2^53 - 1 and a decimal string beyond.
   */
  function IntToJson(k: IntKind, v: Value): (r: Result<Value>)
    ensures r.Ok? <==> ToBigInt(k, v).Ok?
    ensures r.Ok? && (IsSafe(k) || Abs(ToBigInt(k, v).value) <= MAX_SAFE_INTEGER) ==> r.value == Num(ToBigInt(k, v).value)
    ensures r.Ok? && !IsSafe(k) && Abs(ToBigInt(k, v).value) > MAX_SAFE_INTEGER ==>
              r.value.Str? && IsDecimal(r.value.s) && ParseDecimal(r.value.s) == ToBigInt(k, v).value
  {
    var n :- ToBigInt(k, v);
    if IsSafe(k) || Abs(n) <= MAX_SAFE_INTEGER then Ok(Num(n))
    else
      DecimalRoundTrip(n);
      Ok(Str(Decimal(n)))
  }

  /** `fromJSON`: the safe types check and return their input unchanged; int64 and uint64 return a bigint. */
  function IntFromJson(k: IntKind, j: Value): (r: Result<Value>)
    ensures r.Ok? <==> ToBigInt(k, j).Ok?
    ensures r.Ok? && IsSafe(k) ==> r.value == j
    ensures r.Ok? && !IsSafe(k) ==> r.value == Big(ToBigInt(k, j).value)
  {
    var n :- ToBigInt(k, j);
    if IsSafe(k) then Ok(j) else Ok(Big(n))
  }

  /** JSON written for int64 and uint64 reads back as the same integer. */
  lemma UnsafeJsonRoundTrip(k: IntKind, v: Value)
    requires !IsSafe(k) && ToBigInt(k, v).Ok?
    ensures IntToJson(k, v).Ok?
    ensures IntFromJson(k, IntToJson(k, v).value) == Ok(Big(ToBigInt(k, v).value))
  {
    var n := ToBigInt(k, v).value;
    var j := IntToJson(k, v).value;
    if j.Str? {
      assert ParseDecimal(j.s) == n;
      ParseDecimalText(j.s);
    }
  }

  /* ---------------------------------------------------------------------- */
  /* Little-endian fixed width                                              */
  /* ---------------------------------------------------------------------- */

  /** The `count` low bytes of `n`, least significant first. */
  function LE(n: nat, count: nat): (r: seq<byte>)
    ensures |r| == count
  {
    if count == 0 then [] else [n % 256] + LE(n / 256, count - 1)
  }

  /** The number whose little-endian bytes these are. */
  function LEValue(bs: seq<byte>): (r: nat)
    ensures r < Pow256(|bs|)
  {
    if bs == [] then 0 else bs[0] + 256 * LEValue(bs[1..])
  }

  lemma {:induction false} LERoundTrip(n: nat, count: nat)
    requires n < Pow256(count)
    ensures LEValue(LE(n, count)) == n
  {
    if count > 0 {
      LERoundTrip(n / 256, count - 1);
      assert LE(n, count)[1..] == LE(n / 256, count - 1);
    }
  }

  /** The last of `count` bytes is zero exactly when `n` fits in one byte less. */
  lemma {:induction false} LETopByte(n: nat, count: nat)
    requires 0 < count && n < Pow256(count)
    ensures LE(n, count)[count - 1] == 0 <==> n < Pow256(count - 1)
  {
    if count > 1 {
      LETopByte(n / 256, count - 1);
      assert LE(n, count)[count - 1] == LE(n / 256, count - 1)[count - 2];
    }
  }

  lemma {:induction false} LEValueSnoc(bs: seq<byte>, b: byte)
    ensures LEValue(bs + [b]) == LEValue(bs) + b * Pow256(|bs|)
  {
    if bs != [] {
      var p := Pow256(|bs| - 1);
      assert (bs + [b])[1..] == bs[1..] + [b];
      LEValueSnoc(bs[1..], b);
      assert LEValue(bs + [b]) == bs[0] + 256 * LEValue(bs[1..] + [b]);
      ShiftSum(LEValue(bs[1..]), b, p);
    }
  }

  lemma ShiftSum(x: int, b: int, p: int)
    ensures 256 * (x + b * p) == 256 * x + b * (256 * p)
  {
  }

  /** Each byte replaced by 255 minus it, as the decoder does for negative values. */
  function Complement(bs: seq<byte>): (r: seq<byte>)
    ensures |r| == |bs|
  {
    seq(|bs|, i requires 0 <= i < |bs| => 255 - bs[i])
  }

  lemma {:induction false} ComplementValue(bs: seq<byte>)
    ensures LEValue(Complement(bs)) == Pow256(|bs|) - 1 - LEValue(bs)
  {
    if bs != [] {
      assert Complement(bs)[1..] == Complement(bs[1..]);
      ComplementValue(bs[1..]);
    }
  }

  /**
   * What the fixed-width decoder computes from its bytes: the little-endian
   * value, except that for a signed type whose last byte is non-zero the
   * bytes are complemented and the result is -(value + 1).
   */
  function FixedValue(bs: seq<byte>, signed: bool): int
    requires |bs| > 0
  {
    var negative := signed && bs[|bs| - 1] != 0;
    var sum := LEValue(if negative then Complement(bs) else bs);
    if negative then -(sum + 1) else sum
  }

  /** The signed decode is the little-endian value minus 256^n whenever the last byte is non-zero. */
  lemma SignedValue(bs: seq<byte>)
    requires |bs| > 0
    ensures FixedValue(bs, true) == if bs[|bs| - 1] != 0 then LEValue(bs) - Pow256(|bs|) else LEValue(bs)
    ensures FixedValue(bs, false) == LEValue(bs)
  {
    ComplementValue(bs);
  }

  /* ---------------------------------------------------------------------- */
  /* Varint                                                                 */
  /* ---------------------------------------------------------------------- */

  /** Unsigned LEB128: seven bits per byte, low group first, the high bit set on every byte but the last. */
  function Leb128(n: nat): (r: seq<byte>)
    ensures |r| > 0
  {
    if n < 0x80 then [n] else [n % 0x80 + 0x80] + Leb128(n / 0x80)
  }

  /** Every byte of a LEB128 encoding but the last has the continuation bit set; the last has it clear. */
  lemma {:induction false} Leb128Continuation(n: nat)
    ensures Leb128(n)[|Leb128(n)| - 1] < 0x80
    ensures forall i :: 0 <= i < |Leb128(n)| - 1 ==> Leb128(n)[i] >= 0x80
  {
    if n >= 0x80 {
      Leb128Continuation(n / 0x80);
    }
  }

  /** A number below 128^k takes at most k bytes. */
  lemma {:induction false} Leb128Length(n: nat, k: nat)
    requires 0 < k && n < Pow128(k)
    ensures |Leb128(n)| <= k
  {
    if n >= 0x80 {
      Leb128Length(n / 0x80, k - 1);
    }
  }

  /** A varint32 is at most five bytes. */
  lemma Leb128Length32(n: nat)
    requires n < 0x8000_0000
    ensures |Leb128(n)| <= 5
  {
    assert Pow128(5) == 0x8_0000_0000;
    Leb128Length(n, 5);
  }

  /**
   * The varint decode loop from position `pos`: the low seven bits of each
   * byte, least significant group first, up to and including the first byte
   * below 0x80; reading past the end of the buffer fails.
   */
  function VarintFrom(buf: seq<byte>, pos: nat): (r: Result<(nat, nat)>)
    ensures r.Ok? ==> pos < r.value.1 <= |buf| && buf[r.value.1 - 1] < 0x80
    ensures r.Err? ==> r.error == Fail(OutOfRange)
    decreases |buf| - pos
  {
    if pos >= |buf| then Err(Fail(OutOfRange))
    else if buf[pos] < 0x80 then Ok((buf[pos], pos + 1))
    else
      var (n, end) :- VarintFrom(buf, pos + 1);
      Ok((buf[pos] - 0x80 + 0x80 * n, end))
  }

  /** A LEB128 encoding reads back as its number, wherever it sits in a buffer. */
  lemma {:induction false} VarintRoundTrip(n: nat, pre: seq<byte>, rest: seq<byte>)
    ensures VarintFrom(pre + Leb128(n) + rest, |pre|) == Ok((n, |pre| + |Leb128(n)|))
  {
    var buf := pre + Leb128(n) + rest;
    assert buf[|pre|] == Leb128(n)[0];
    if n >= 0x80 {
      var pre' := pre + [n % 0x80 + 0x80];
      assert buf == pre' + Leb128(n / 0x80) + rest;
      VarintRoundTrip(n / 0x80, pre', rest);
    }
  }

  /** `[0x00]` reads as 0 and `[0x80, 0x01]` as 128. */
  lemma VarintExamples()
    ensures VarintFrom([0x00], 0) == Ok((0, 1))
    ensures VarintFrom([0x80, 0x01], 0) == Ok((128, 2))
    ensures VarintFrom([0xAC, 0x02, 0x07], 0) == Ok((300, 2))
    ensures VarintFrom([0x80], 0) == Err(Fail(OutOfRange))
  {
    assert VarintFrom([0x80, 0x01], 1) == Ok((1, 2));
    assert VarintFrom([0xAC, 0x02, 0x07], 1) == Ok((2, 2));
    assert VarintFrom([0x80], 1) == Err(Fail(OutOfRange));
  }

  /* ---------------------------------------------------------------------- */
  /* Decode and append                                                      */
  /* ---------------------------------------------------------------------- */

  /**
   * `readFromBuffer`.  Fixed widths: fail when fewer than bits/8 bytes
   * remain, else decode those bytes.  varint32: the LEB128 loop, then the
   * 2^31 - 1 bound.  Both results pass through `_toBigInt` and `_toJS`.
   */
  function IntRead(k: IntKind, buf: seq<byte>, off: nat): (r: Result<(Value, nat)>)
    ensures r.Ok? ==> off < r.value.1 <= |buf|
    ensures r.Ok? ==> (r.value.0.Num? || r.value.0.Big?) && (r.value.0.Num? <==> IsSafe(k))
    ensures r.Ok? ==> Abs(r.value.0.n) <= MaxAbs(k)
    ensures k != VarInt32 && r.Ok? ==> off + Width(k) <= |buf|
    ensures k != VarInt32 && r.Ok? ==>
              r.value == (ToJs(k, FixedValue(buf[off..off + Width(k)], !IsUint(k))), off + Width(k))
    ensures k == VarInt32 && r.Ok? ==>
              VarintFrom(buf, off).Ok? && r.value == (Num(VarintFrom(buf, off).value.0), VarintFrom(buf, off).value.1)
    ensures k != VarInt32 && |buf| < off + Width(k) ==> r == Err(Fail(UnexpectedBufferEnd(Bits(k), IsUint(k))))
    ensures k != VarInt32 && off + Width(k) <= |buf| ==>
              (r.Ok? <==> Abs(FixedValue(buf[off..off + Width(k)], !IsUint(k))) <= MaxAbs(k))
    ensures k == VarInt32 && VarintFrom(buf, off).Err? ==> r == Err(VarintFrom(buf, off).error)
    ensures k == VarInt32 && VarintFrom(buf, off).Ok? ==> (r.Ok? <==> VarintFrom(buf, off).value.0 <= MaxAbs(VarInt32))
    ensures r.Err? && (if k == VarInt32 then VarintFrom(buf, off).Ok? else off + Width(k) <= |buf|) ==>
              r == Err(Fail(Overflow(Bits(k), IsUint(k))))
  {
    if k == VarInt32 then
      var (n, end) :- VarintFrom(buf, off);
      var m :- ToBigInt(VarInt32, Big(n));
      Ok((Num(m), end))
    else
      var count := Width(k);
      if |buf| < off + count then Err(Fail(UnexpectedBufferEnd(Bits(k), IsUint(k))))
      else
        var m := ToBigInt(k, Big(FixedValue(buf[off..off + count], !IsUint(k))));
        if m.Err? then Err(m.error) else Ok((ToJs(k, m.value), off + count))
  }

  /** An unsigned decode always fits the type's bound, so its `_toBigInt` check never fails. */
  lemma UnsignedValueInRange(k: IntKind, bs: seq<byte>)
    requires IsUint(k) && |bs| == Width(k)
    ensures FixedValue(bs, false) <= MaxAbs(k)
  {
    SignedValue(bs);
    var bits := Bits(k);
    assert MaxAbs(k) + 1 == Pow2(bits);
    Pow2Bytes(|bs|);
    assert 8 * |bs| == bits;
  }

  /**
   * The signed decode is not confined to the int64 range: a last byte from
   * 0x01 to 0x7f gives a value below -2^63 + 1, which the `_toBigInt` check
   * then rejects.  Eight bytes encoding 2^56 fail to decode.
   */
  lemma SignedDecodeOfLargePositive()
    ensures FixedValue([0, 0, 0, 0, 0, 0, 0, 1], true) == 0x0100_0000_0000_0000 - 0x1_0000_0000_0000_0000
    ensures IntRead(Int64, [0, 0, 0, 0, 0, 0, 0, 1], 0) == Err(Fail(Overflow(64, false)))
  {
    var bs: seq<byte> := [0, 0, 0, 0, 0, 0, 0, 1];
    LargePositiveValue();
    MaxAbsValues();
    assert bs[0..8] == bs;
  }

  lemma LargePositiveValue()
    ensures FixedValue([0, 0, 0, 0, 0, 0, 0, 1], true) == 0x0100_0000_0000_0000 - 0x1_0000_0000_0000_0000
  {
    var bs: seq<byte> := [0, 0, 0, 0, 0, 0, 0, 1];
    SignedValue(bs);
    assert LEValue(bs) == 0x0100_0000_0000_0000;
    assert Pow256(8) == 0x1_0000_0000_0000_0000;
  }

  /** The last byte of a little-endian sequence is non-zero exactly when its value needs all of it. */
  lemma LETopByteOfValue(bs: seq<byte>)
    requires |bs| > 0
    ensures bs[|bs| - 1] != 0 <==> LEValue(bs) >= Pow256(|bs| - 1)
  {
    LEOfValue(bs);
    LETopByte(LEValue(bs), |bs|);
  }

  /** Bytes are the little-endian encoding of their own value. */
  lemma {:induction false} LEOfValue(bs: seq<byte>)
    ensures LE(LEValue(bs), |bs|) == bs
  {
    if bs != [] {
      LEOfValue(bs[1..]);
      var n := LEValue(bs);
      assert n % 256 == bs[0] && n / 256 == LEValue(bs[1..]);
    }
  }

  /**
   * `appendToByteBuffer`: the bytes written.  Fixed widths reject a magnitude
   * of 2^53 - 1 or more, then write the value modulo 2^bits little-endian;
   * varint32 rejects a negative value, then writes LEB128.  Every check comes
   * before the write, so a failure writes nothing.
   */
  function IntAppend(k: IntKind, v: Value): (r: Result<seq<byte>>)
    ensures r.Ok? ==> ToBigInt(k, v).Ok?
    ensures k != VarInt32 && r.Ok? ==> |r.value| == Width(k) && Abs(ToBigInt(k, v).value) < MAX_SAFE_INTEGER
    ensures k == VarInt32 && r.Ok? ==> 0 < |r.value| <= 5 && ToBigInt(k, v).value >= 0
    ensures ToBigInt(k, v).Ok? && k != VarInt32 && Abs(ToBigInt(k, v).value) >= MAX_SAFE_INTEGER ==>
              r == Err(Fail(UnsafeNotImplemented(Bits(k), IsUint(k))))
    ensures ToBigInt(k, v).Ok? && k == VarInt32 && ToBigInt(k, v).value < 0 ==> r == Err(Fail(NegativeVarint))
  {
    var n :- ToBigInt(k, v);
    if k == VarInt32 then
      if n < 0 then Err(Fail(NegativeVarint))
      else
        MaxAbsValues();
        Leb128Length32(n);
        Ok(Leb128(n))
    else if Abs(n) >= MAX_SAFE_INTEGER then Err(Fail(UnsafeNotImplemented(Bits(k), IsUint(k))))
    else Ok(LE(n % Pow2(Bits(k)), Width(k)))
  }

  /** The varint32 encoding of a count, as the combinators write it. */
  lemma VarintAppendOfCount(n: nat)
    requires n <= 0x7FFF_FFFF
    ensures IntAppend(VarInt32, Num(n)) == Ok(Leb128(n))
  {
    MaxAbsValues();
  }

  /** A fixed-width read of bytes placed at `|pre|`. */
  lemma FixedReadAt(k: IntKind, bs: seq<byte>, pre: seq<byte>, rest: seq<byte>)
    requires k != VarInt32 && |bs| == Width(k)
    requires Abs(FixedValue(bs, !IsUint(k))) <= MaxAbs(k)
    ensures IntRead(k, pre + bs + rest, |pre|) == Ok((ToJs(k, FixedValue(bs, !IsUint(k))), |pre| + |bs|))
  {
    var buf := pre + bs + rest;
    assert buf[|pre|..|pre| + |bs|] == bs;
  }

  /** An unsigned value within the type decodes to itself after encoding. */
  lemma UnsignedRoundTrip(k: IntKind, v: Value, pre: seq<byte>, rest: seq<byte>)
    requires IsUint(k) && ToBigInt(k, v).Ok? && ToBigInt(k, v).value >= 0
    requires IntAppend(k, v).Ok?
    ensures IntRead(k, pre + IntAppend(k, v).value + rest, |pre|)
              == Ok((ToJs(k, ToBigInt(k, v).value), |pre| + |IntAppend(k, v).value|))
  {
    var n := ToBigInt(k, v).value;
    UnsignedBytes(k, n);
    assert IntAppend(k, v).value == LE(n, Width(k));
    FixedReadAt(k, IntAppend(k, v).value, pre, rest);
  }

  /** The bytes written for an unsigned value within the type are its little-endian bytes, and decode to it. */
  lemma UnsignedBytes(k: IntKind, n: nat)
    requires IsUint(k) && n <= MaxAbs(k)
    ensures n % Pow2(Bits(k)) == n
    ensures FixedValue(LE(n, Width(k)), false) == n
  {
    var bits := Bits(k);
    assert bits % 8 == 0 && bits > 0;
    assert n < Pow2(bits);
    LEFits(n, Width(k));
  }

  lemma LEFits(n: nat, count: nat)
    requires 0 < count && n < Pow2(8 * count)
    ensures n % Pow2(8 * count) == n
    ensures FixedValue(LE(n, count), false) == n
  {
    SmallMod(n, Pow2(8 * count));
    Pow2Bytes(count);
    LERoundTrip(n, count);
    assert FixedValue(LE(n, count), false) == LEValue(LE(n, count));
  }

  lemma SmallMod(n: nat, m: nat)
    requires n < m
    ensures n % m == n
  {
  }

  /** uint8 writes a byte as itself and reads a byte as itself. */
  lemma UInt8Byte(n: nat, buf: seq<byte>, off: nat)
    requires n < 256
    ensures IntAppend(UInt8, Num(n)) == Ok([n])
    ensures off < |buf| && buf[off] == n ==> IntRead(UInt8, buf, off) == Ok((Num(n), off + 1))
  {
    MaxAbsValues();
    UnsignedBytes(UInt8, n);
    assert LE(n, 1) == [n];
    if off < |buf| && buf[off] == n {
      assert buf[off..off + 1] == [n];
    }
  }
  /** A string input is read by `BigInt`: uint8 writes `"0x10"` as 16 and uint64's `fromJSON("+7")` is 7. */
  lemma StringInputExamples()
    ensures IntAppend(UInt8, Str([0x30, 0x78, 0x31, 0x30])) == Ok([0x10])
    ensures IntFromJson(UInt64, Str([0x2B, 0x37])) == Ok(Big(7))
  {
    var hex := Str([0x30, 0x78, 0x31, 0x30]);
    ParseHex(hex.s);
    MaxAbsValues();
    assert ToBigInt(UInt8, hex) == Ok(16) == ToBigInt(UInt8, Num(16));
    SameAppend(UInt8, hex, Num(16));
    UInt8Byte(16, [], 0);
    var plus := Str([0x2B, 0x37]);
    ParsePlusSeven(plus.s);
    assert ToBigInt(UInt64, plus) == Ok(7);
  }

  lemma ParsePlusSeven(s: seq<byte>)
    requires s == [0x2B, 0x37]
    ensures ParseBigInt(s) == Ok(7)
  {
    assert TrimEnd(s) == s && TrimStart(s) == s;
    assert s[1..] == [0x37] && [0x37][..0] == [];
  }

  /** Inputs normalised to the same integer are written alike. */
  lemma SameAppend(k: IntKind, v: Value, w: Value)
    requires ToBigInt(k, v) == ToBigInt(k, w)
    ensures IntAppend(k, v) == IntAppend(k, w)
  {
  }



  /** An unsigned read fails only when the buffer is too short. */
  lemma UnsignedReadSucceeds(k: IntKind, buf: seq<byte>, off: nat)
    requires IsUint(k)
    ensures IntRead(k, buf, off).Ok? <==> off + Width(k) <= |buf|
  {
    if off + Width(k) <= |buf| {
      UnsignedValueInRange(k, buf[off..off + Width(k)]);
    }
  }

  /** int64 values of magnitude below 2^53 - 1 decode to themselves: for these the sign rule is two's complement. */
  lemma Int64RoundTrip(v: Value, pre: seq<byte>, rest: seq<byte>)
    requires ToBigInt(Int64, v).Ok? && Abs(ToBigInt(Int64, v).value) < MAX_SAFE_INTEGER
    ensures IntAppend(Int64, v).Ok?
    ensures IntRead(Int64, pre + IntAppend(Int64, v).value + rest, |pre|)
              == Ok((Big(ToBigInt(Int64, v).value), |pre| + 8))
  {
    var n := ToBigInt(Int64, v).value;
    var bytes := LE(n % Pow2(64), 8);
    Int64Written(v);
    Int64Bytes(n);
    Int64Bound(n);
    FixedReadAt(Int64, bytes, pre, rest);
  }

  /** The eight bytes int64 writes for a value it accepts. */
  lemma Int64Written(v: Value)
    requires ToBigInt(Int64, v).Ok? && Abs(ToBigInt(Int64, v).value) < MAX_SAFE_INTEGER
    ensures IntAppend(Int64, v) == Ok(LE(ToBigInt(Int64, v).value % Pow2(64), 8))
  {
  }

  lemma Int64Bound(n: int)
    requires Abs(n) < MAX_SAFE_INTEGER
    ensures Abs(n) <= MaxAbs(Int64)
  {
    MaxAbsValues();
  }

  /** For |n| < 2^53 - 1 the eight bytes written read back as n. */
  lemma Int64Bytes(n: int)
    requires Abs(n) < MAX_SAFE_INTEGER
    ensures FixedValue(LE(n % Pow2(64), 8), true) == n
  {
    Pow2Bytes(8);
    Pow2Bytes(7);
    assert Pow256(8) == 0x1_0000_0000_0000_0000;
    assert Pow256(7) == 0x100_0000_0000_0000;
    var m := n % Pow2(64);
    var bytes := LE(m, 8);
    LERoundTrip(m, 8);
    LETopByte(m, 8);
    SignedValue(bytes);
  }

  /** varint32 values from 0 to 2^31 - 1 decode to themselves. */
  lemma VarInt32RoundTrip(v: Value, pre: seq<byte>, rest: seq<byte>)
    requires ToBigInt(VarInt32, v).Ok? && ToBigInt(VarInt32, v).value >= 0
    ensures IntAppend(VarInt32, v).Ok?
    ensures IntRead(VarInt32, pre + IntAppend(VarInt32, v).value + rest, |pre|)
              == Ok((Num(ToBigInt(VarInt32, v).value), |pre| + |IntAppend(VarInt32, v).value|))
  {
    var n := ToBigInt(VarInt32, v).value;
    VarintRoundTrip(n, pre, rest);
  }

  /* ---------------------------------------------------------------------- */
  /* The loops                                                              */
  /* ---------------------------------------------------------------------- */

  /** `IIntSerializer.readFromBuffer`: the bounds check, then the byte loop. */
  method ReadFixed(k: IntKind, buf: seq<byte>, off: nat) returns (r: Result<(Value, nat)>)
    requires k != VarInt32
    ensures r == IntRead(k, buf, off)
  {
    var count := Width(k);
    var newOffset := off + count;
    if |buf| < newOffset {
      return Err(Fail(UnexpectedBufferEnd(Bits(k), IsUint(k))));
    }
    var bytes := buf[off..newOffset];
    var result := FixedLoop(bytes, !IsUint(k));
    var checked := ToBigInt(k, Big(result));
    if checked.Err? {
      return Err(checked.error);
    }
    return Ok((ToJs(k, checked.value), newOffset));
  }

  /** The loop of `readFromBuffer` over the bytes, accumulating `result` and `multiplier`. */
  method FixedLoop(bytes: seq<byte>, signed: bool) returns (result: int)
    requires |bytes| > 0
    ensures result == FixedValue(bytes, signed)
  {
    var count := |bytes|;
    var isNegative := signed && bytes[count - 1] != 0;
    ghost var digits := if isNegative then Complement(bytes) else bytes;
    result := 0;
    var multiplier: int := 1;
    var i := 0;
    while i < count
      invariant 0 <= i <= count
      invariant multiplier == Pow256(i)
      invariant result == LEValue(digits[..i])
    {
      var b: int := bytes[i];
      assert digits[i] == if isNegative then 0xff - b else b;
      LEValueSnoc(digits[..i], digits[i]);
      assert digits[..i + 1] == digits[..i] + [digits[i]];
      result := result + (if isNegative then 0xff - b else b) * multiplier;
      multiplier := multiplier * 256;
      i := i + 1;
    }
    assert digits[..count] == digits;
    if isNegative {
      result := -(result + 1);
    }
  }

  /** `Ok((acc + scale * n, end))` for a successful inner read, the same failure otherwise. */
  function Scaled(r: Result<(nat, nat)>, acc: nat, scale: nat): Result<(nat, nat)> {
    match r
    case Ok((n, end)) => Ok((acc + scale * n, end))
    case Err(e) => Err(e)
  }

  /** One turn of the varint loop, in terms of the rest of the buffer; `d` is the byte's low seven bits. */
  lemma VarintStep(buf: seq<byte>, pos: nat, acc: nat, scale: nat, d: nat)
    requires pos < |buf| && d == if buf[pos] < 0x80 then buf[pos] as nat else buf[pos] - 0x80
    ensures buf[pos] < 0x80 ==> Scaled(VarintFrom(buf, pos), acc, scale) == Ok((acc + d * scale, pos + 1))
    ensures buf[pos] >= 0x80 ==>
              Scaled(VarintFrom(buf, pos), acc, scale) == Scaled(VarintFrom(buf, pos + 1), acc + d * scale, scale * 0x80)
  {
    if buf[pos] >= 0x80 {
      var tail := VarintFrom(buf, pos + 1);
      if tail.Ok? {
        Regroup(scale, d, tail.value.0);
      }
    }
  }

  lemma Regroup(scale: int, d: int, n: int)
    ensures scale * (d + 0x80 * n) == d * scale + (scale * 0x80) * n
  {
  }

  /** `VarInt32Serializer.readFromBuffer`: the byte loop, then the `_toBigInt` bound check. */
  method ReadVarint(buf: seq<byte>, off: nat) returns (r: Result<(Value, nat)>)
    ensures r == IntRead(VarInt32, buf, off)
  {
    var read := VarintLoop(buf, off);
    if read.Err? {
      return Err(read.error);
    }
    var (result, newOffset) := read.value;
    MaxAbsValues();
    if result > 0x7FFF_FFFF {
      return Err(Fail(Overflow(32, false)));
    }
    return Ok((Num(result), newOffset));
  }

  /** The `while (true)` loop: one byte per turn, stopping after the first byte below 0x80. */
  method VarintLoop(buf: seq<byte>, off: nat) returns (r: Result<(nat, nat)>)
    ensures r == VarintFrom(buf, off)
  {
    var result: nat := 0;
    var multiplier: nat := 1;
    var newOffset := off;
    while true
      invariant off <= newOffset
      invariant VarintFrom(buf, off) == Scaled(VarintFrom(buf, newOffset), result, multiplier)
      decreases |buf| - newOffset
    {
      if newOffset >= |buf| {
        return Err(Fail(OutOfRange));
      }
      var b := buf[newOffset];
      var isEnd := b < 0x80;
      var digit: nat := b - (if isEnd then 0 else 0x80);
      VarintStep(buf, newOffset, result, multiplier, digit);
      result := result + digit * multiplier;
      multiplier := multiplier * 0x80;
      newOffset := newOffset + 1;
      if isEnd {
        return Ok((result, newOffset));
      }
    }
  }

  /** The typed `appendToByteBuffer`s: check, then write; a failure leaves the buffer as it was. */
  method AppendInt(k: IntKind, v: Value, sink: ByteSink) returns (err: Option<Error>)
    modifies sink
    ensures IntAppend(k, v).Ok? ==> err == None && sink.data == old(sink.data) + IntAppend(k, v).value
    ensures IntAppend(k, v).Err? ==> err == Some(IntAppend(k, v).error) && sink.data == old(sink.data)
  {
    var value := ToBigInt(k, v);
    if value.Err? {
      return Some(value.error);
    }
    var n := value.value;
    if k == VarInt32 {
      if n < 0 {
        return Some(Fail(NegativeVarint));
      }
      sink.Append(Leb128(n));
    } else {
      if Abs(n) >= MAX_SAFE_INTEGER {
        return Some(Fail(UnsafeNotImplemented(Bits(k), IsUint(k))));
      }
      sink.Append(LE(n % Pow2(Bits(k)), Width(k)));
    }
    return None;
  }
}
