/**
  UTF-8 as used by Python's `str.encode()` and strict `bytes.decode()`.
  A Dafny `char` is a Unicode scalar value, so every string is encodable; the decoder
  accepts exactly the well-formed byte sequences of Table 3-7 of the Unicode Standard
  (no overlong forms, no surrogates, nothing above U+10FFFF).
*/
module Utf8 {
  import opened Bytes
  import opened Wrappers

  /** A continuation octet 10xxxxxx. */
  predicate IsCont(b: byte)
  {
    0x80 <= b <= 0xBF
  }

  /** The one to four octets that encode `c`. */
  function EncodeChar(c: char): (r: seq<byte>)
    ensures 1 <= |r| <= 4
  {
    var n := c as int;
    if n < 0x80 then [n]
    else if n < 0x800 then [0xC0 + n / 0x40, 0x80 + n % 0x40]
    else if n < 0x1_0000 then [0xE0 + n / 0x1000, 0x80 + (n / 0x40) % 0x40, 0x80 + n % 0x40]
    else [0xF0 + n / 0x4_0000, 0x80 + (n / 0x1000) % 0x40, 0x80 + (n / 0x40) % 0x40, 0x80 + n % 0x40]
  }

  /** The encoding of a whole string: the encodings of its characters, in order. */
  function Encode(s: string): (r: seq<byte>)
    ensures |s| <= |r| <= 4 * |s|
  {
    if |s| == 0 then [] else EncodeChar(s[0]) + Encode(s[1..])
  }

  /** A code point that is a Unicode scalar value, hence a Dafny `char`. */
  predicate IsScalar(n: int)
  {
    (0 <= n < 0xD800) || (0xE000 <= n < 0x11_0000)
  }

  /**
    Decodes the first character of `b`, returning it with the number of octets it used,
    or None when `b` does not start with a well-formed sequence.
  */
  function DecodeChar(b: seq<byte>): (r: Option<(char, nat)>)
    requires |b| > 0
    ensures r.Some? ==> 1 <= r.value.1 <= |b|
  {
    var b0: int := b[0];
    if b0 < 0x80 then
      Some((b0 as char, 1))
    else if 0xC2 <= b0 <= 0xDF then
      if |b| < 2 || !IsCont(b[1]) then None
      else
        var n := (b0 - 0xC0) * 0x40 + (b[1] as int - 0x80);
        Some((n as char, 2))
    else if 0xE0 <= b0 <= 0xEF then
      if |b| < 3 || !IsCont(b[1]) || !IsCont(b[2]) then None
      else
        var n := (b0 - 0xE0) * 0x1000 + (b[1] as int - 0x80) * 0x40 + (b[2] as int - 0x80);
        if n < 0x800 || !IsScalar(n) then None else Some((n as char, 3))
    else if 0xF0 <= b0 <= 0xF4 then
      if |b| < 4 || !IsCont(b[1]) || !IsCont(b[2]) || !IsCont(b[3]) then None
      else
        var n := (b0 - 0xF0) * 0x4_0000 + (b[1] as int - 0x80) * 0x1000 + (b[2] as int - 0x80) * 0x40 + (b[3] as int - 0x80);
        if n < 0x1_0000 || !IsScalar(n) then None else Some((n as char, 4))
    else
      None
  }

  /** Strict decoding of a whole octet sequence; None is Python's UnicodeDecodeError. */
  function Decode(b: seq<byte>): (r: Option<string>)
    decreases |b|
  {
    if |b| == 0 then Some([])
    else
      match DecodeChar(b)
      case None => None
      case Some((c, k)) =>
        match Decode(b[k..])
        case None => None
        case Some(s) => Some([c] + s)
  }

  lemma Div64(n: int, q: int, r: int)
    requires n == q * 0x40 + r && 0 <= r < 0x40
    ensures n / 0x40 == q && n % 0x40 == r
  {
  }

  /** The base-64 digits of a code point, as the encoder takes them apart. */
  lemma Digits(n: int)
    requires 0 <= n
    ensures n == (n / 0x40) * 0x40 + n % 0x40
    ensures n / 0x1000 == (n / 0x40) / 0x40
    ensures n / 0x4_0000 == (n / 0x1000) / 0x40
  {
    var q := n / 0x40;
    var q2 := q / 0x40;
    var q3 := q2 / 0x40;
    Div64(n, q, n % 0x40);
    Div64(q, q2, q % 0x40);
    Div64(q2, q3, q2 % 0x40);
    assert n == q2 * 0x1000 + ((q % 0x40) * 0x40 + n % 0x40);
    assert n == q3 * 0x4_0000 + ((q2 % 0x40) * 0x1000 + (q % 0x40) * 0x40 + n % 0x40);
  }

  /** Decoding the encoding of one character yields that character and consumes exactly its octets. */
  lemma EncodeCharDecodes(c: char, rest: seq<byte>)
    ensures DecodeChar(EncodeChar(c) + rest) == Some((c, |EncodeChar(c)|))
  {
    var n := c as int;
    if n < 0x80 {
    } else if n < 0x800 {
      DecodeTwo(n, rest);
      assert EncodeChar(c) == [0xC0 + n / 0x40, 0x80 + n % 0x40];
    } else if n < 0x1_0000 {
      DecodeThree(n, rest);
      assert EncodeChar(c) == [0xE0 + n / 0x1000, 0x80 + (n / 0x40) % 0x40, 0x80 + n % 0x40];
    } else {
      DecodeFour(n, rest);
      assert EncodeChar(c) == [0xF0 + n / 0x4_0000, 0x80 + (n / 0x1000) % 0x40, 0x80 + (n / 0x40) % 0x40, 0x80 + n % 0x40];
    }
  }

  /** The two-octet form of a code point in U+0080..U+07FF decodes back to it. */
  lemma DecodeTwo(n: int, rest: seq<byte>)
    requires 0x80 <= n < 0x800
    ensures DecodeChar([0xC0 + n / 0x40, 0x80 + n % 0x40] + rest) == Some((n as char, 2))
  {
    var b := [0xC0 + n / 0x40, 0x80 + n % 0x40] + rest;
    Digits(n);
    assert (b[0] as int - 0xC0) * 0x40 + (b[1] as int - 0x80) == n;
  }

  /** The three-octet form of a scalar value in U+0800..U+FFFF decodes back to it. */
  lemma DecodeThree(n: int, rest: seq<byte>)
    requires 0x800 <= n < 0x1_0000 && IsScalar(n)
    ensures DecodeChar([0xE0 + n / 0x1000, 0x80 + (n / 0x40) % 0x40, 0x80 + n % 0x40] + rest) == Some((n as char, 3))
  {
    var b := [0xE0 + n / 0x1000, 0x80 + (n / 0x40) % 0x40, 0x80 + n % 0x40] + rest;
    Digits(n);
    assert (b[0] as int - 0xE0) * 0x1000 + (b[1] as int - 0x80) * 0x40 + (b[2] as int - 0x80) == n;
  }

  /** The four-octet form of a code point in U+10000..U+10FFFF decodes back to it. */
  lemma DecodeFour(n: int, rest: seq<byte>)
    requires 0x1_0000 <= n < 0x11_0000
    ensures DecodeChar([0xF0 + n / 0x4_0000, 0x80 + (n / 0x1000) % 0x40, 0x80 + (n / 0x40) % 0x40, 0x80 + n % 0x40] + rest)
         == Some((n as char, 4))
  {
    var b := [0xF0 + n / 0x4_0000, 0x80 + (n / 0x1000) % 0x40, 0x80 + (n / 0x40) % 0x40, 0x80 + n % 0x40] + rest;
    Digits(n);
    assert (b[0] as int - 0xF0) * 0x4_0000 + (b[1] as int - 0x80) * 0x1000 + (b[2] as int - 0x80) * 0x40 + (b[3] as int - 0x80) == n;
  }

  /** Decoding after encoding gives back the original string (Python: `t.encode().decode() == t`). */
  lemma {:induction false} DecodeEncode(s: string)
    ensures Decode(Encode(s)) == Some(s)
  {
    if |s| > 0 {
      var e := EncodeChar(s[0]);
      var b := Encode(s);
      assert b == e + Encode(s[1..]);
      EncodeCharDecodes(s[0], Encode(s[1..]));
      assert b[|e|..] == Encode(s[1..]);
      DecodeEncode(s[1..]);
      assert [s[0]] + s[1..] == s;
    }
  }

  /** A decoded character was written in its one canonical form: the decoder accepts no overlong or other alternative encodings. */
  lemma DecodeCharCanonical(b: seq<byte>)
    requires |b| > 0 && DecodeChar(b).Some?
    ensures b[..DecodeChar(b).value.1] == EncodeChar(DecodeChar(b).value.0)
  {
    var b0: int := b[0];
    var c := DecodeChar(b).value.0;
    var n := c as int;
    if b0 < 0x80 {
      assert b[..1] == [b0];
    } else if 0xC2 <= b0 <= 0xDF {
      Div64(n, b0 - 0xC0, b[1] as int - 0x80);
      assert b[..2] == [b[0], b[1]];
    } else if 0xE0 <= b0 <= 0xEF {
      var q := (b0 - 0xE0) * 0x40 + (b[1] as int - 0x80);
      Div64(n, q, b[2] as int - 0x80);
      Div64(q, b0 - 0xE0, b[1] as int - 0x80);
      Digits(n);
      assert b[..3] == [b[0], b[1], b[2]];
    } else {
      var q2 := (b0 - 0xF0) * 0x40 + (b[1] as int - 0x80);
      var q := q2 * 0x40 + (b[2] as int - 0x80);
      Div64(n, q, b[3] as int - 0x80);
      Div64(q, q2, b[2] as int - 0x80);
      Div64(q2, b0 - 0xF0, b[1] as int - 0x80);
      Digits(n);
      assert b[..4] == [b[0], b[1], b[2], b[3]];
    }
  }

  /** Whatever the decoder accepts is exactly the encoding of what it returns. */
  lemma {:induction false} DecodeCanonical(b: seq<byte>)
    requires Decode(b).Some?
    ensures Encode(Decode(b).value) == b
    decreases |b|
  {
    if |b| > 0 {
      var c := DecodeChar(b).value.0;
      var k := DecodeChar(b).value.1;
      var r := Decode(b[k..]).value;
      var s := [c] + r;
      assert Decode(b) == Some(s);
      DecodeCharCanonical(b);
      DecodeCanonical(b[k..]);
      assert s[0] == c && s[1..] == r;
      assert Encode(s) == EncodeChar(c) + Encode(r);
      assert b == b[..k] + b[k..];
    }
  }
}
