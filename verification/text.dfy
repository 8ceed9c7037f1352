/**
 * Bytes and the three textual encodings the codecs rely on:
 *  - the order in which JavaScript compares two strings with `<`, which for
 *    the ASCII strings compared here is lexicographic order on their bytes;
 *  - lowercase hexadecimal, as Node's `toString("hex")` writes it and
 *    `Buffer.from(s, "hex")` reads it;
 *  - decimal, as `bigint.toString()` writes it, and the wider integer
 *    syntax `BigInt(s)` reads (white space, a sign, 0x/0o/0b literals).
 * A JavaScript string is modelled by its UTF-8 bytes.
 */
module Text {

  type byte = x: int | 0 <= x < 256

  /** A loop started at 0 with nothing gathered covers the whole sequence. */
  lemma Whole<T>(s: seq<T>)
    ensures s[0..] == s && [] + s == s
  {
  }

  /** Two appends one after the other append their concatenation. */
  lemma Regroup3<T>(a: seq<T>, b: seq<T>, c: seq<T>)
    ensures a + b + c == a + (b + c)
  {
  }

  /** Whatever begins with `acc + [x]` has `acc` first and `x` right after it. */
  lemma Extended<T>(acc: seq<T>, x: T, r: seq<T>)
    requires |acc| < |r| && r[..|acc| + 1] == acc + [x]
    ensures r[..|acc|] == acc && r[|acc|] == x
  {
    assert r[..|acc|] == r[..|acc| + 1][..|acc|];
  }

  /** A sequence whose elements after the first are those of `b`, in order, is its first element then `b`. */
  lemma Shifted<T>(a: seq<T>, b: seq<T>)
    requires |a| == |b| + 1 && forall k :: 0 <= k < |b| ==> a[k + 1] == b[k]
    ensures a == [a[0]] + b
  {
  }

  /* ---------------------------------------------------------------------- */
  /* Lexicographic order                                                    */
  /* ---------------------------------------------------------------------- */

  /** `x < y` on strings: the first differing unit decides, a proper prefix is smaller. */
  predicate Less(x: seq<byte>, y: seq<byte>)
    decreases |x|
  {
    |y| > 0 && (|x| == 0 || x[0] < y[0] || (x[0] == y[0] && Less(x[1..], y[1..])))
  }

  lemma {:induction false} LessIrreflexive(x: seq<byte>)
    ensures !Less(x, x)
  {
    if |x| > 0 {
      LessIrreflexive(x[1..]);
    }
  }

  lemma {:induction false} LessTransitive(x: seq<byte>, y: seq<byte>, z: seq<byte>)
    requires Less(x, y) && Less(y, z)
    ensures Less(x, z)
  {
    if |x| > 0 && x[0] == y[0] && y[0] == z[0] {
      LessTransitive(x[1..], y[1..], z[1..]);
    }
  }

  lemma {:induction false} LessTotal(x: seq<byte>, y: seq<byte>)
    ensures x == y || Less(x, y) || Less(y, x)
  {
    if |x| > 0 && |y| > 0 && x[0] == y[0] {
      LessTotal(x[1..], y[1..]);
      if x[1..] == y[1..] {
        calc {
          x;
          [x[0]] + x[1..];
          [y[0]] + y[1..];
          y;
        }
      }
    }
  }

  lemma LessAsymmetric(x: seq<byte>, y: seq<byte>)
    requires Less(x, y)
    ensures !Less(y, x)
  {
    if Less(y, x) {
      LessTransitive(x, y, x);
      LessIrreflexive(x);
    }
  }

  /* ---------------------------------------------------------------------- */
  /* Lowercase hexadecimal                                                  */
  /* ---------------------------------------------------------------------- */

  /** The character of one nibble: '0'..'9' then 'a'..'f'. */
  function HexDigit(d: int): byte
    requires 0 <= d < 16
  {
    if d < 10 then 0x30 + d else 0x61 + (d - 10)
  }

  predicate IsHexDigit(c: int) {
    0x30 <= c <= 0x39 || 0x61 <= c <= 0x66
  }

  function DigitValue(c: byte): (d: int)
    requires IsHexDigit(c)
    ensures 0 <= d < 16 && HexDigit(d) == c
  {
    if c <= 0x39 then c - 0x30 else c - 0x61 + 10
  }

  lemma HexDigitValue(d: int)
    requires 0 <= d < 16
    ensures IsHexDigit(HexDigit(d)) && DigitValue(HexDigit(d)) == d
  {
  }

  /** The two characters of one byte, high nibble first. */
  function HexPair(b: byte): seq<byte> {
    [HexDigit(b / 16), HexDigit(b % 16)]
  }

  /** `buffer.toString("hex")`. */
  function Hex(bytes: seq<byte>): (h: seq<byte>)
    ensures |h| == 2 * |bytes|
  {
    if bytes == [] then [] else HexPair(bytes[0]) + Hex(bytes[1..])
  }

  /** The test `/^([\da-f]{2})*$/`: whole pairs of lowercase hex digits. */
  predicate IsHex(s: seq<byte>) {
    |s| % 2 == 0 && forall i :: 0 <= i < |s| ==> IsHexDigit(s[i])
  }

  /** `Buffer.from(s, "hex")` on a string that passed IsHex. */
  function FromHex(s: seq<byte>): (b: seq<byte>)
    requires IsHex(s)
    ensures |b| == |s| / 2
    decreases |s|
  {
    if s == [] then []
    else
      assert IsHex(s[2..]) by {
        forall i | 0 <= i < |s[2..]| ensures IsHexDigit(s[2..][i]) {
          assert s[2..][i] == s[i + 2];
        }
      }
      [DigitValue(s[0]) * 16 + DigitValue(s[1])] + FromHex(s[2..])
  }

  /** Hex output is valid hex input and reads back as the same bytes. */
  lemma {:induction false} HexRoundTrip(bytes: seq<byte>)
    ensures IsHex(Hex(bytes)) && FromHex(Hex(bytes)) == bytes
  {
    if bytes != [] {
      var b := bytes[0];
      HexRoundTrip(bytes[1..]);
      HexDigitValue(b / 16);
      HexDigitValue(b % 16);
      var h := Hex(bytes);
      assert h == HexPair(b) + Hex(bytes[1..]);
      assert h[2..] == Hex(bytes[1..]);
      forall i | 0 <= i < |h| ensures IsHexDigit(h[i]) {
        if i >= 2 {
          assert h[i] == Hex(bytes[1..])[i - 2];
        }
      }
      assert [b] + bytes[1..] == bytes;
    }
  }

  /** Every valid hex string is the hex of the bytes it reads as. */
  lemma {:induction false} HexOfFromHex(s: seq<byte>)
    requires IsHex(s)
    ensures Hex(FromHex(s)) == s
  {
    if s != [] {
      var hi, lo := DigitValue(s[0]), DigitValue(s[1]);
      var b: byte := hi * 16 + lo;
      assert FromHex(s) == [b] + FromHex(s[2..]);
      assert FromHex(s)[1..] == FromHex(s[2..]);
      assert b / 16 == hi && b % 16 == lo;
      HexOfFromHex(s[2..]);
      assert s == [s[0], s[1]] + s[2..];
    }
  }

  /** Bytes are recovered from their hex, so distinct bytes have distinct hex. */
  lemma HexInjective(a: seq<byte>, b: seq<byte>)
    requires Hex(a) == Hex(b)
    ensures a == b
  {
    HexRoundTrip(a);
    HexRoundTrip(b);
  }

  lemma HexDigitMonotone(d: int, e: int)
    requires 0 <= d < 16 && 0 <= e < 16
    ensures HexDigit(d) < HexDigit(e) <==> d < e
  {
  }

  /** Comparing hex strings with `<` orders byte strings lexicographically. */
  lemma {:induction false} HexOrder(a: seq<byte>, b: seq<byte>)
    ensures Less(Hex(a), Hex(b)) <==> Less(a, b)
  {
    if a != [] && b != [] {
      var x, y := a[0], b[0];
      var ha, hb := Hex(a), Hex(b);
      HexDigitMonotone(x / 16, y / 16);
      HexDigitMonotone(x % 16, y % 16);
      assert ha[0] == HexDigit(x / 16) && ha[1] == HexDigit(x % 16);
      assert hb[0] == HexDigit(y / 16) && hb[1] == HexDigit(y % 16);
      assert ha[1..][1..] == Hex(a[1..]);
      assert hb[1..][1..] == Hex(b[1..]);
      HexOrder(a[1..], b[1..]);
      assert x == 16 * (x / 16) + x % 16;
      assert y == 16 * (y / 16) + y % 16;
      assert x < y <==> (x / 16 < y / 16 || (x / 16 == y / 16 && x % 16 < y % 16));
    }
  }

  /* ---------------------------------------------------------------------- */
  /* Decimal                                                                */
  /* ---------------------------------------------------------------------- */

  predicate IsDigit(c: int) {
    0x30 <= c <= 0x39
  }

  predicate AllDigits(s: seq<byte>) {
    forall i :: 0 <= i < |s| ==> IsDigit(s[i])
  }

  function DecimalDigits(n: nat): (s: seq<byte>)
    ensures |s| > 0 && AllDigits(s)
  {
    if n < 10 then [0x30 + n] else DecimalDigits(n / 10) + [0x30 + n % 10]
  }

  /** `n.toString()`: an optional minus sign, then the digits. */
  function Decimal(n: int): seq<byte> {
    if n < 0 then [0x2D] + DecimalDigits(-n) else DecimalDigits(n)
  }

  /** The text `toString()` writes: an optional minus sign, then one or more digits. */
  predicate IsDecimal(s: seq<byte>) {
    (|s| > 0 && AllDigits(s)) || (|s| > 1 && s[0] == 0x2D && AllDigits(s[1..]))
  }

  function DigitsValue(s: seq<byte>): nat
    requires AllDigits(s)
    decreases |s|
  {
    if s == [] then 0 else DigitsValue(s[..|s| - 1]) * 10 + (s[|s| - 1] - 0x30)
  }

  /** The integer a `toString()` text spells. */
  function ParseDecimal(s: seq<byte>): int
    requires IsDecimal(s)
  {
    if s[0] == 0x2D then -(DigitsValue(s[1..]) as int) else DigitsValue(s)
  }

  lemma {:induction false} DigitsRoundTrip(n: nat)
    ensures DigitsValue(DecimalDigits(n)) == n
  {
    if n >= 10 {
      var s := DecimalDigits(n);
      assert s[..|s| - 1] == DecimalDigits(n / 10);
      DigitsRoundTrip(n / 10);
    }
  }

  /** What toString writes, BigInt reads back. */
  lemma DecimalRoundTrip(n: int)
    ensures IsDecimal(Decimal(n)) && ParseDecimal(Decimal(n)) == n
  {
    if n < 0 {
      var s := Decimal(n);
      assert s[1..] == DecimalDigits(-n);
      DigitsRoundTrip(-n);
    } else {
      DigitsRoundTrip(n);
    }
  }

  /* ---------------------------------------------------------------------- */
  /* The text `BigInt(s)` accepts                                           */
  /* ---------------------------------------------------------------------- */

  /** TAB, LF, VT, FF, CR and SPACE: the white space and line terminators of one UTF-8 byte. */
  predicate IsWs1(a: byte) {
    0x09 <= a <= 0x0D || a == 0x20
  }

  /**
   * The three-byte UTF-8 forms of U+1680, U+2000 to U+200A, U+2028, U+2029,
   * U+202F, U+205F, U+3000 and U+FEFF (the only two-byte one is U+00A0).
   */
  predicate IsWs3(a: byte, b: byte, c: byte) {
    (a == 0xE1 && b == 0x9A && c == 0x80)
    || (a == 0xE2 && b == 0x80 && (0x80 <= c <= 0x8A || c == 0xA8 || c == 0xA9 || c == 0xAF))
    || (a == 0xE2 && b == 0x81 && c == 0x9F)
    || (a == 0xE3 && b == 0x80 && c == 0x80)
    || (a == 0xEF && b == 0xBB && c == 0xBF)
  }

  /** `c` is the UTF-8 form of one character JavaScript's white space or line terminators. */
  predicate WsChar(c: seq<byte>) {
    (|c| == 1 && IsWs1(c[0]))
    || (|c| == 2 && c[0] == 0xC2 && c[1] == 0xA0)
    || (|c| == 3 && IsWs3(c[0], c[1], c[2]))
  }

  /** The length of the white-space character `s` starts with, 0 when it starts with none. */
  function LeadingWs(s: seq<byte>): (n: nat)
    ensures n <= |s|
  {
    if |s| >= 1 && IsWs1(s[0]) then 1
    else if |s| >= 2 && s[0] == 0xC2 && s[1] == 0xA0 then 2
    else if |s| >= 3 && IsWs3(s[0], s[1], s[2]) then 3
    else 0
  }

  /** The length of the white-space character `s` ends with, 0 when it ends with none. */
  function TrailingWs(s: seq<byte>): (n: nat)
    ensures n <= |s|
  {
    var k := |s|;
    if k >= 1 && IsWs1(s[k - 1]) then 1
    else if k >= 2 && s[k - 2] == 0xC2 && s[k - 1] == 0xA0 then 2
    else if k >= 3 && IsWs3(s[k - 3], s[k - 2], s[k - 1]) then 3
    else 0
  }

  function TrimStart(s: seq<byte>): seq<byte>
    decreases |s|
  {
    var n := LeadingWs(s);
    if n == 0 then s else TrimStart(s[n..])
  }

  function TrimEnd(s: seq<byte>): seq<byte>
    decreases |s|
  {
    var n := TrailingWs(s);
    if n == 0 then s else TrimEnd(s[..|s| - n])
  }

  /** The text between the leading and the trailing white space. */
  function Trim(s: seq<byte>): seq<byte> {
    TrimStart(TrimEnd(s))
  }

  /** A white-space character is recognised as exactly itself at the start of any text. */
  lemma LeadingWsOf(c: seq<byte>, s: seq<byte>)
    requires WsChar(c)
    ensures LeadingWs(c + s) == |c| && (c + s)[|c|..] == s
  {
  }

  /** ... and at its end. */
  lemma TrailingWsOf(s: seq<byte>, c: seq<byte>)
    requires WsChar(c)
    ensures TrailingWs(s + c) == |c| && (s + c)[..|s + c| - |c|] == s
  {
    var t := s + c;
    var k := |t|;
    assert t[k - 1] == c[|c| - 1];
    if |c| >= 2 {
      assert t[k - 2] == c[|c| - 2];
    }
    if |c| == 3 {
      assert t[k - 3] == c[0];
    }
  }

  /** A white-space character ends where a text that does not end in white space begins. */
  lemma NoTrailingAfter(c: seq<byte>, s: seq<byte>)
    requires WsChar(c) && s != [] && TrailingWs(s) == 0
    ensures TrailingWs(c + s) == 0
  {
    var t := c + s;
    var k := |t|;
    assert t[k - 1] == s[|s| - 1];
    if |s| >= 2 {
      assert t[k - 2] == s[|s| - 2];
    } else {
      assert t[k - 2] == c[|c| - 1];
    }
    if |s| >= 3 {
      assert t[k - 3] == s[|s| - 3];
    } else if |s| == 2 && k >= 3 {
      assert t[k - 3] == c[|c| - 1];
    } else if |s| == 1 && k >= 3 {
      assert t[k - 3] == c[|c| - 2];
    }
  }

  /** White space after the text's own trailing white space is trimmed with it. */
  lemma TrimEndAppend(s: seq<byte>, c: seq<byte>)
    requires WsChar(c)
    ensures TrimEnd(s + c) == TrimEnd(s)
  {
    TrailingWsOf(s, c);
  }

  /** Text in front keeps its trailing white space trimmed as it was. */
  lemma {:induction false} TrailingWsAfter(p: seq<byte>, s: seq<byte>)
    requires TrailingWs(s) > 0
    ensures TrailingWs(p + s) == TrailingWs(s)
  {
    var t := p + s;
    var k, m := |t|, |s|;
    assert t[k - 1] == s[m - 1];
    if m >= 2 {
      assert t[k - 2] == s[m - 2];
    }
    if m >= 3 {
      assert t[k - 3] == s[m - 3];
    }
  }

  /** A leading white-space character does not change the trimmed text. */
  lemma {:induction false} TrimLeading(c: seq<byte>, s: seq<byte>)
    requires WsChar(c)
    ensures Trim(c + s) == Trim(s)
    decreases |s|
  {
    if s == [] {
      TrimWsChar(c);
    } else if TrailingWs(s) > 0 {
      var s' := s[..|s| - TrailingWs(s)];
      TrimEndBefore(c, s);
      TrimLeading(c, s');
    } else {
      NoTrailingAfter(c, s);
      LeadingWsOf(c, s);
    }
  }

  lemma TrimWsChar(c: seq<byte>)
    requires WsChar(c)
    ensures Trim(c + []) == Trim([])
  {
    assert c + [] == [] + c;
    TrimEndAppend([], c);
  }

  /** Trimming a text's trailing white space with or without a character in front. */
  lemma TrimEndBefore(c: seq<byte>, s: seq<byte>)
    requires TrailingWs(s) > 0
    ensures TrimEnd(c + s) == TrimEnd(c + s[..|s| - TrailingWs(s)])
    ensures TrimEnd(s) == TrimEnd(s[..|s| - TrailingWs(s)])
  {
    var n := TrailingWs(s);
    TrailingWsAfter(c, s);
    assert (c + s)[..|c + s| - n] == c + s[..|s| - n];
  }

  /** A trailing white-space character does not change the trimmed text. */
  lemma TrimTrailing(s: seq<byte>, c: seq<byte>)
    requires WsChar(c)
    ensures Trim(s + c) == Trim(s)
  {
    TrimEndAppend(s, c);
  }

  /** Decimal digits, hex digits in either case, and the digits of base 8 and base 2. */
  function DigitIn(radix: nat, c: byte): (d: int)
    ensures d < radix
  {
    var v := if 0x30 <= c <= 0x39 then c - 0x30
             else if 0x61 <= c <= 0x66 then c - 0x61 + 10
             else if 0x41 <= c <= 0x46 then c - 0x41 + 10
             else radix;
    if v < radix then v else -1
  }

  predicate AllDigitsIn(radix: nat, s: seq<byte>) {
    forall i :: 0 <= i < |s| ==> 0 <= DigitIn(radix, s[i])
  }

  /** The value of the digits, most significant first. */
  function ValueIn(radix: nat, s: seq<byte>): nat
    requires AllDigitsIn(radix, s)
    decreases |s|
  {
    if s == [] then 0 else ValueIn(radix, s[..|s| - 1]) * radix + DigitIn(radix, s[|s| - 1])
  }

  /** The base a `0x`/`0X`, `0o`/`0O` or `0b`/`0B` prefix names, 0 for none. */
  function RadixOf(c: byte): nat {
    if c == 0x78 || c == 0x58 then 16
    else if c == 0x6F || c == 0x4F then 8
    else if c == 0x62 || c == 0x42 then 2
    else 0
  }

  /** Base-10 digits are the decimal digits, with the value `toString` gives them. */
  lemma {:induction false} DecimalDigitsIn(s: seq<byte>)
    requires AllDigits(s)
    ensures AllDigitsIn(10, s) && ValueIn(10, s) == DigitsValue(s)
    decreases |s|
  {
    if s != [] {
      DecimalDigitsIn(s[..|s| - 1]);
    }
  }

  /** Decimal text starts and ends with a digit, so there is nothing to trim. */
  lemma DecimalUntrimmed(s: seq<byte>)
    requires IsDecimal(s)
    ensures Trim(s) == s
  {
    assert IsDigit(s[|s| - 1]);
  }
}
