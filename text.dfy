/**
 * Text primitives the saver relies on from the Python runtime: bytes, strict
 * UTF-8 decoding (`bytes.decode('utf-8')`), UTF-8 encoding
 * (`str.encode('utf-8')`), `str.strip()`, `hexdigest()` and
 * the decimal rendering of a counter in an f-string.
 */
module Text {
  import opened Wrappers

  newtype byte = x: int | 0 <= x < 256

  // ---------------------------------------------------------------- UTF-8

  predicate IsCont(b: byte) { 0x80 <= b <= 0xBF }

  /** The second byte of a three-byte sequence led by `b0` (excludes overlongs and surrogates). */
  predicate SecondOf3(b0: int, b1: byte) {
    if b0 == 0xE0 then 0xA0 <= b1 <= 0xBF
    else if b0 == 0xED then 0x80 <= b1 <= 0x9F
    else IsCont(b1)
  }

  /** The second byte of a four-byte sequence led by `b0` (excludes overlongs and values above U+10FFFF). */
  predicate SecondOf4(b0: int, b1: byte) {
    if b0 == 0xF0 then 0x90 <= b1 <= 0xBF
    else if b0 == 0xF4 then 0x80 <= b1 <= 0x8F
    else IsCont(b1)
  }

  /**
   * Decodes the first character of `b`, giving it with the number of bytes it
   * used. Only the shortest encoding of a Unicode scalar value is accepted:
   * the bytes consumed are exactly the encoding of the decoded character, so
   * overlong forms, surrogates and values above U+10FFFF are rejected.
   */
  function DecodeFirst(b: seq<byte>): (r: Option<(char, nat)>)
    requires |b| > 0
    ensures r.Some? ==> 1 <= r.value.1 <= 4 && r.value.1 <= |b|
    ensures r.Some? ==> b[..r.value.1] == EncodeChar(r.value.0)
    ensures b[0] < 0x80 ==> r == Some((b[0] as int as char, 1))
  {
    var b0 := b[0] as int;
    if b0 < 0x80 then
      Some((b0 as char, 1))
    else if 0xC2 <= b0 <= 0xDF then
      if |b| >= 2 && IsCont(b[1]) then
        var cp := (b0 - 0xC0) * 0x40 + (b[1] as int - 0x80);
        assert cp / 0x40 == b0 - 0xC0 && cp % 0x40 == b[1] as int - 0x80;
        Some((cp as char, 2))
      else None
    else if 0xE0 <= b0 <= 0xEF then
      if |b| >= 3 && SecondOf3(b0, b[1]) && IsCont(b[2]) then
        var cp := (b0 - 0xE0) * 0x1000 + (b[1] as int - 0x80) * 0x40 + (b[2] as int - 0x80);
        ThreeByteFields(b0 - 0xE0, b[1] as int - 0x80, b[2] as int - 0x80);
        Some((cp as char, 3))
      else None
    else if 0xF0 <= b0 <= 0xF4 then
      if |b| >= 4 && SecondOf4(b0, b[1]) && IsCont(b[2]) && IsCont(b[3]) then
        var cp := (b0 - 0xF0) * 0x40000 + (b[1] as int - 0x80) * 0x1000
                  + (b[2] as int - 0x80) * 0x40 + (b[3] as int - 0x80);
        FourByteJoin(b0 - 0xF0, b[1] as int - 0x80, b[2] as int - 0x80, b[3] as int - 0x80);
        Some((cp as char, 4))
      else None
    else
      None
  }

  /** Three 6-bit-or-less fields packed into a code point come apart again. */
  lemma ThreeByteFields(hi: int, mid: int, lo: int)
    requires 0 <= hi < 16 && 0 <= mid < 0x40 && 0 <= lo < 0x40
    ensures var n := hi * 0x1000 + mid * 0x40 + lo;
            n / 0x1000 == hi && n / 0x40 % 0x40 == mid && n % 0x40 == lo
  {
    var n := hi * 0x1000 + mid * 0x40 + lo;
    assert n / 0x40 == hi * 0x40 + mid;
  }

  lemma FourByteJoin(top: int, hi: int, mid: int, lo: int)
    requires 0 <= top < 8 && 0 <= hi < 0x40 && 0 <= mid < 0x40 && 0 <= lo < 0x40
    ensures var n := top * 0x40000 + hi * 0x1000 + mid * 0x40 + lo;
            n / 0x40000 == top && n / 0x1000 % 0x40 == hi && n / 0x40 % 0x40 == mid && n % 0x40 == lo
  {
    var n := top * 0x40000 + hi * 0x1000 + mid * 0x40 + lo;
    assert n / 0x40 == top * 0x1000 + hi * 0x40 + mid;
    assert n / 0x1000 == top * 0x40 + hi;
  }

  /**
   * Strict UTF-8 decoding: `None` is the `UnicodeDecodeError` Python raises.
   * Whatever is accepted is exactly the encoding of the decoded text.
   */
  function DecodeUtf8(b: seq<byte>): (r: Option<string>)
    ensures r.Some? ==> |r.value| <= |b|
    ensures r.Some? ==> EncodeUtf8(r.value) == b
    decreases |b|
  {
    if b == [] then Some([])
    else
      match DecodeFirst(b)
      case None => None
      case Some((c, n)) =>
        match DecodeUtf8(b[n..])
        case None => None
        case Some(rest) =>
          assert ([c] + rest)[1..] == rest;
          assert b == b[..n] + b[n..];
          Some([c] + rest)
  }

  /** The UTF-8 encoding of one character: one to four bytes by code point range. */
  function EncodeChar(c: char): (r: seq<byte>)
    ensures 1 <= |r| <= 4
  {
    var n := c as int;
    if n < 0x80 then [n as byte]
    else if n < 0x800 then [(0xC0 + n / 0x40) as byte, (0x80 + n % 0x40) as byte]
    else if n < 0x10000 then
      [(0xE0 + n / 0x1000) as byte, (0x80 + n / 0x40 % 0x40) as byte, (0x80 + n % 0x40) as byte]
    else
      [(0xF0 + n / 0x40000) as byte, (0x80 + n / 0x1000 % 0x40) as byte,
       (0x80 + n / 0x40 % 0x40) as byte, (0x80 + n % 0x40) as byte]
  }

  lemma DecodeTwo(c: char, rest: seq<byte>)
    requires 0x80 <= c as int < 0x800
    ensures DecodeFirst(EncodeChar(c) + rest) == Some((c, 2))
  {
    var n := c as int;
    var b := EncodeChar(c) + rest;
    assert b[0] as int == 0xC0 + n / 0x40 && b[1] as int == 0x80 + n % 0x40;
  }

  lemma DecodeThree(c: char, rest: seq<byte>)
    requires 0x800 <= c as int < 0x10000
    ensures DecodeFirst(EncodeChar(c) + rest) == Some((c, 3))
  {
    var n := c as int;
    var b := EncodeChar(c) + rest;
    var hi, mid, lo := n / 0x1000, n / 0x40 % 0x40, n % 0x40;
    assert n == hi * 0x1000 + mid * 0x40 + lo;
    assert b[0] as int == 0xE0 + hi && b[1] as int == 0x80 + mid && b[2] as int == 0x80 + lo;
    assert hi == 0 ==> mid >= 0x20;
    assert hi == 0xD ==> mid < 0x20;
  }

  lemma FourByteFields(n: int)
    requires 0x10000 <= n < 0x110000
    ensures var top, hi, mid, lo := n / 0x40000, n / 0x1000 % 0x40, n / 0x40 % 0x40, n % 0x40;
            && n == top * 0x40000 + hi * 0x1000 + mid * 0x40 + lo
            && 0 <= top <= 4 && 0 <= hi < 0x40 && 0 <= mid < 0x40 && 0 <= lo < 0x40
            && (top == 0 ==> hi >= 0x10) && (top == 4 ==> hi < 0x10)
  {
  }

  lemma DecodeFour(c: char, rest: seq<byte>)
    requires 0x10000 <= c as int
    ensures DecodeFirst(EncodeChar(c) + rest) == Some((c, 4))
  {
    var n := c as int;
    FourByteFields(n);
    var top, hi, mid, lo := n / 0x40000, n / 0x1000 % 0x40, n / 0x40 % 0x40, n % 0x40;
    var b := EncodeChar(c) + rest;
    assert b[0] as int == 0xF0 + top && b[1] as int == 0x80 + hi;
    assert b[2] as int == 0x80 + mid && b[3] as int == 0x80 + lo;
  }
  /** `str.encode('utf-8')` */
  function EncodeUtf8(s: string): (r: seq<byte>)
    ensures |r| >= |s|
  {
    if s == [] then [] else EncodeChar(s[0]) + EncodeUtf8(s[1..])
  }

  lemma DecodeFirstOfEncoded(c: char, rest: seq<byte>)
    ensures DecodeFirst(EncodeChar(c) + rest) == Some((c, |EncodeChar(c)|))
  {
    var n := c as int;
    if n < 0x80 {
    } else if n < 0x800 {
      DecodeTwo(c, rest);
    } else if n < 0x10000 {
      DecodeThree(c, rest);
    } else {
      DecodeFour(c, rest);
    }
  }

  /**
   * Decoding is exactly the inverse of encoding: a byte string decodes to
   * `s` if and only if it is the encoding of `s`, so every byte string that
   * is not such an encoding is rejected.
   */
  lemma DecodeUtf8Exact(b: seq<byte>, s: string)
    ensures DecodeUtf8(b) == Some(s) <==> EncodeUtf8(s) == b
  {
    if EncodeUtf8(s) == b {
      DecodeEncodeUtf8(s);
    }
  }

  /** Decoding undoes encoding: text the saver stores is read back unchanged. */
  lemma {:induction false} DecodeEncodeUtf8(s: string)
    ensures DecodeUtf8(EncodeUtf8(s)) == Some(s)
  {
    if s != [] {
      var b := EncodeUtf8(s);
      var head := EncodeChar(s[0]);
      DecodeFirstOfEncoded(s[0], EncodeUtf8(s[1..]));
      assert b[|head|..] == EncodeUtf8(s[1..]);
      DecodeEncodeUtf8(s[1..]);
      assert [s[0]] + s[1..] == s;
    }
  }

  // ---------------------------------------------------------------- strip

  /**
   * The characters for which Python's `str.isspace()` holds. In ASCII they
   * are the space, tab to carriage return, and the four separators 0x1C to
   * 0x1F; no digit or letter is one.
   */
  predicate IsSpace(c: char): (b: bool)
    ensures c as int < 0x80 ==> (b <==> c == ' ' || '\t' <= c <= '\r' || 0x1C <= c as int <= 0x1F)
    ensures '0' <= c <= '9' || 'a' <= c <= 'z' || 'A' <= c <= 'Z' ==> !b
  {
    var n := c as int;
    (0x09 <= n <= 0x0D) || (0x1C <= n <= 0x20) || n == 0x85 || n == 0xA0 || n == 0x1680
    || (0x2000 <= n <= 0x200A) || n == 0x2028 || n == 0x2029 || n == 0x202F
    || n == 0x205F || n == 0x3000
  }

  /** The number of leading whitespace characters of `s`. */
  function LeadingSpaces(s: string): (k: nat)
    ensures k <= |s|
    ensures forall i :: 0 <= i < k ==> IsSpace(s[i])
    ensures k < |s| ==> !IsSpace(s[k])
  {
    if s == [] || !IsSpace(s[0]) then 0 else 1 + LeadingSpaces(s[1..])
  }

  /** The number of trailing whitespace characters of `s`. */
  function TrailingSpaces(s: string): (k: nat)
    ensures k <= |s|
    ensures forall i :: |s| - k <= i < |s| ==> IsSpace(s[i])
    ensures k < |s| ==> !IsSpace(s[|s| - 1 - k])
  {
    if s == [] || !IsSpace(s[|s| - 1]) then 0 else 1 + TrailingSpaces(s[..|s| - 1])
  }

  /** Python's `str.strip()` with no argument. */
  function Strip(s: string): (r: string)
    ensures r == [] || (!IsSpace(r[0]) && !IsSpace(r[|r| - 1]))
    ensures exists i, j :: 0 <= i <= j <= |s| && r == s[i..j]
                           && (forall k :: 0 <= k < i ==> IsSpace(s[k]))
                           && (forall k :: j <= k < |s| ==> IsSpace(s[k]))
  {
    var i := LeadingSpaces(s);
    var j := |s| - TrailingSpaces(s[i..]);
    assert s[i..][..j - i] == s[i..j];
    s[i..j]
  }

  /** Text with no whitespace at either end is left alone by `strip()`. */
  lemma StripUnpadded(s: string)
    requires s == [] || (!IsSpace(s[0]) && !IsSpace(s[|s| - 1]))
    ensures Strip(s) == s
  {
    assert LeadingSpaces(s) == 0;
    assert s[0..] == s;
  }

  /** `strip()` is idempotent. */
  lemma StripIdempotent(s: string)
    ensures Strip(Strip(s)) == Strip(s)
  {
    StripUnpadded(Strip(s));
  }

  // ---------------------------------------------------------------- hexdigest

  /** A lowercase hexadecimal digit. */
  function HexChar(d: int): (c: char)
    requires 0 <= d < 16
    ensures !IsSpace(c)
    ensures ('0' <= c <= '9' && c as int - '0' as int == d) || ('a' <= c <= 'f' && c as int - 'a' as int + 10 == d)
  {
    if d < 10 then ('0' as int + d) as char else ('a' as int + d - 10) as char
  }

  /** `hexdigest()`: two lowercase hexadecimal digits per digest byte, high nibble first. */
  function HexDigest(raw: seq<byte>): (r: string)
    ensures |r| == 2 * |raw|
    ensures forall i :: 0 <= i < |raw| ==>
              r[2 * i] == HexChar(raw[i] as int / 16) && r[2 * i + 1] == HexChar(raw[i] as int % 16)
  {
    if raw == [] then []
    else [HexChar(raw[0] as int / 16), HexChar(raw[0] as int % 16)] + HexDigest(raw[1..])
  }

  predicate HasNoSpace(s: string) {
    forall i :: 0 <= i < |s| ==> !IsSpace(s[i])
  }

  /** A hex digest holds no whitespace, so `strip()` leaves it alone. */
  lemma {:induction false} HexDigestHasNoSpace(raw: seq<byte>)
    ensures HasNoSpace(HexDigest(raw))
  {
    if raw != [] {
      HexDigestHasNoSpace(raw[1..]);
      var h := HexDigest(raw);
      var t := HexDigest(raw[1..]);
      forall i | 0 <= i < |h|
        ensures !IsSpace(h[i])
      {
        if i >= 2 {
          assert h[i] == t[i - 2];
        }
      }
    }
  }

  // ---------------------------------------------------------------- decimal

  function DigitChar(d: int): (c: char)
    requires 0 <= d < 10
    ensures '0' <= c <= '9' && c as int - '0' as int == d
  {
    ('0' as int + d) as char
  }

  /** The f-string rendering of a natural number: decimal digits, no sign, no leading zero. */
  function Decimal(n: nat): (r: string)
    ensures |r| >= 1
    ensures forall i :: 0 <= i < |r| ==> '0' <= r[i] <= '9'
    ensures r[0] == '0' ==> n == 0
  {
    if n < 10 then [DigitChar(n)] else Decimal(n / 10) + [DigitChar(n % 10)]
  }

  /** The number a string of decimal digits denotes. */
  function DecimalValue(s: string): nat
    requires forall i :: 0 <= i < |s| ==> '0' <= s[i] <= '9'
  {
    if s == [] then 0 else 10 * DecimalValue(s[..|s| - 1]) + (s[|s| - 1] as int - '0' as int)
  }

  /** Reading a rendered number gives the number back. */
  lemma {:induction false} DecimalRoundTrip(n: nat)
    ensures DecimalValue(Decimal(n)) == n
  {
    if n >= 10 {
      var s := Decimal(n);
      assert s[..|s| - 1] == Decimal(n / 10);
      assert s[|s| - 1] as int - '0' as int == n % 10;
      DecimalRoundTrip(n / 10);
    }
  }

  /** Distinct numbers render as distinct strings. */
  lemma DecimalInjective(m: nat, n: nat)
    requires Decimal(m) == Decimal(n)
    ensures m == n
  {
    DecimalRoundTrip(m);
    DecimalRoundTrip(n);
  }
}
