/** Byte encodings the handshake passes its text through: `Encoding.ASCII`,
    `Encoding.UTF8` and `Convert.ToBase64String` (section 4 of RFC 4648). */
module Encoding {
  import opened Wrappers
  import opened Text

  type Byte = b: int | 0 <= b < 0x100

  /** `Encoding.ASCII.GetBytes`: one byte per character, `?` for a character outside ASCII. */
  function AsciiEncode(s: string): (r: seq<Byte>)
    ensures |r| == |s|
    ensures IsAscii(s) ==> AsciiDecode(r) == s
  {
    seq(|s|, i requires 0 <= i < |s| => if s[i] as int < 0x80 then s[i] as int else '?' as int)
  }

  /** `Encoding.ASCII.GetString`: one character per byte, `?` for a byte above 0x7F. */
  function AsciiDecode(b: seq<Byte>): (r: string)
    ensures |r| == |b| && IsAscii(r)
    ensures forall i :: 0 <= i < |b| && b[i] < 0x80 ==> r[i] as int == b[i]
    ensures forall i :: 0 <= i < |b| && b[i] >= 0x80 ==> r[i] == '?'
  {
    seq(|b|, i requires 0 <= i < |b| => if b[i] < 0x80 then b[i] as char else '?')
  }

  /** Bytes below 0x80 survive decoding and encoding again; bytes above (the UTF-8 form
      of any non-ASCII character, for one) come back as `?`. */
  lemma AsciiDecodeEncode(b: seq<Byte>)
    ensures forall i :: 0 <= i < |b| ==> AsciiEncode(AsciiDecode(b))[i] == if b[i] < 0x80 then b[i] else '?' as int
  {
  }

  /** The UTF-8 form of one Unicode scalar value. */
  function Utf8Char(c: char): (r: seq<Byte>)
    ensures 1 <= |r| <= 4
    ensures c as int < 0x80 ==> r == [c as int]
    ensures c as int >= 0x80 ==> |r| >= 2 && forall i :: 0 <= i < |r| ==> r[i] >= 0x80
  {
    var n := c as int;
    if n < 0x80 then [n]
    else if n < 0x800 then [0xC0 + n / 0x40, 0x80 + n % 0x40]
    else if n < 0x10000 then [0xE0 + n / 0x1000, 0x80 + (n / 0x40) % 0x40, 0x80 + n % 0x40]
    else [0xF0 + n / 0x40000, 0x80 + (n / 0x1000) % 0x40, 0x80 + (n / 0x40) % 0x40, 0x80 + n % 0x40]
  }

  /** `Encoding.UTF8.GetBytes`; on ASCII text it agrees with the ASCII encoding. */
  function Utf8Encode(s: string): (r: seq<Byte>)
    ensures |r| >= |s|
    ensures IsAscii(s) ==> r == AsciiEncode(s)
  {
    if s == [] then []
    else
      AsciiEncodeCons(s);
      Utf8Char(s[0]) + Utf8Encode(s[1..])
  }

  lemma AsciiEncodeCons(s: string)
    requires s != []
    ensures IsAscii(s) ==> IsAscii(s[1..]) && AsciiEncode(s) == [s[0] as int] + AsciiEncode(s[1..])
  {
    if IsAscii(s) {
      assert forall i :: 0 <= i < |s| - 1 ==> s[1..][i] == s[i + 1];
    }
  }

  // ---------------------------------------------------------------- base64

  /** The character of the base64 alphabet for a 6-bit value. */
  function Base64Digit(v: nat): (c: char)
    requires v < 64
    ensures c as int < 0x80 && c != '='
  {
    if v < 26 then ('A' as int + v) as char
    else if v < 52 then ('a' as int + v - 26) as char
    else if v < 62 then ('0' as int + v - 52) as char
    else if v == 62 then '+'
    else '/'
  }

  predicate IsBase64Digit(c: char) {
    ('A' <= c <= 'Z') || ('a' <= c <= 'z') || ('0' <= c <= '9') || c == '+' || c == '/'
  }

  function Base64Value(c: char): (v: nat)
    requires IsBase64Digit(c)
    ensures v < 64 && Base64Digit(v) == c
  {
    if 'A' <= c <= 'Z' then c as int - 'A' as int
    else if 'a' <= c <= 'z' then c as int - 'a' as int + 26
    else if '0' <= c <= '9' then c as int - '0' as int + 52
    else if c == '+' then 62
    else 63
  }

  lemma Base64ValueOfDigit(v: nat)
    requires v < 64
    ensures IsBase64Digit(Base64Digit(v)) && Base64Value(Base64Digit(v)) == v
  {
  }

  /** `Convert.ToBase64String`: four characters for every three bytes, the last group
      padded with `=`. */
  function Base64Encode(b: seq<Byte>): (r: string)
    ensures |r| == 4 * ((|b| + 2) / 3)
  {
    if |b| == 0 then ""
    else if |b| == 1 then
      [Base64Digit(b[0] / 4), Base64Digit((b[0] % 4) * 16), '=', '=']
    else if |b| == 2 then
      [Base64Digit(b[0] / 4), Base64Digit((b[0] % 4) * 16 + b[1] / 16), Base64Digit((b[1] % 16) * 4), '=']
    else
      [Base64Digit(b[0] / 4), Base64Digit((b[0] % 4) * 16 + b[1] / 16),
       Base64Digit((b[1] % 16) * 4 + b[2] / 64), Base64Digit(b[2] % 64)] + Base64Encode(b[3..])
  }

  /** Base64 text is ASCII text over the base64 alphabet and `=`. */
  lemma {:induction false} Base64EncodeAlphabet(b: seq<Byte>)
    ensures forall i :: 0 <= i < |Base64Encode(b)| ==> IsBase64Digit(Base64Encode(b)[i]) || Base64Encode(b)[i] == '='
    ensures IsAscii(Base64Encode(b))
  {
    if |b| >= 3 {
      Base64EncodeAlphabet(b[3..]);
      EncodeGroup(b);
    }
  }

  /** The decoder a receiver applies: `None` for text that is not base64. */
  function Base64Decode(s: string): Option<seq<Byte>> {
    if s == [] then Some([])
    else if |s| < 4 || !IsBase64Digit(s[0]) || !IsBase64Digit(s[1]) then None
    else
      var v0, v1 := Base64Value(s[0]), Base64Value(s[1]);
      if |s| == 4 && s[2] == '=' && s[3] == '=' then
        Some([v0 * 4 + v1 / 16])
      else if !IsBase64Digit(s[2]) then None
      else
        var v2 := Base64Value(s[2]);
        if |s| == 4 && s[3] == '=' then
          Some([v0 * 4 + v1 / 16, (v1 % 16) * 16 + v2 / 4])
        else if !IsBase64Digit(s[3]) then None
        else
          var v3 := Base64Value(s[3]);
          match Base64Decode(s[4..])
          case None => None
          case Some(rest) => Some([v0 * 4 + v1 / 16, (v1 % 16) * 16 + v2 / 4, (v2 % 4) * 64 + v3] + rest)
  }

  lemma Base64Group(b0: Byte, b1: Byte, b2: Byte)
    ensures var v0, v1, v2, v3 := b0 / 4, (b0 % 4) * 16 + b1 / 16, (b1 % 16) * 4 + b2 / 64, b2 % 64;
            v0 * 4 + v1 / 16 == b0 && (v1 % 16) * 16 + v2 / 4 == b1 && (v2 % 4) * 64 + v3 == b2
  {
  }

  lemma DecodeLastOne(b0: Byte, s: string)
    requires s == [Base64Digit(b0 / 4), Base64Digit((b0 % 4) * 16), '=', '=']
    ensures Base64Decode(s) == Some([b0])
  {
    var v0, v1 := b0 / 4, (b0 % 4) * 16;
    Base64ValueOfDigit(v0);
    Base64ValueOfDigit(v1);
    assert v0 * 4 + v1 / 16 == b0;
  }

  lemma Base64LastOne(b: seq<Byte>)
    requires |b| == 1
    ensures Base64Decode(Base64Encode(b)) == Some(b)
  {
    DecodeLastOne(b[0], Base64Encode(b));
    assert b == [b[0]];
  }

  lemma DecodeLastTwo(b0: Byte, b1: Byte, s: string)
    requires s == [Base64Digit(b0 / 4), Base64Digit((b0 % 4) * 16 + b1 / 16), Base64Digit((b1 % 16) * 4), '=']
    ensures Base64Decode(s) == Some([b0, b1])
  {
    var v0, v1, v2 := b0 / 4, (b0 % 4) * 16 + b1 / 16, (b1 % 16) * 4;
    Base64ValueOfDigit(v0);
    Base64ValueOfDigit(v1);
    Base64ValueOfDigit(v2);
    assert v0 * 4 + v1 / 16 == b0 && (v1 % 16) * 16 + v2 / 4 == b1;
    assert s[2] != '=' && s[3] == '=';
  }

  lemma Base64LastTwo(b: seq<Byte>)
    requires |b| == 2
    ensures Base64Decode(Base64Encode(b)) == Some(b)
  {
    DecodeLastTwo(b[0], b[1], Base64Encode(b));
    assert b == [b[0], b[1]];
  }

  /** One full group of four digits decodes to three bytes in front of what follows. */
  lemma DecodeFullGroup(s: string)
    requires |s| >= 4 && IsBase64Digit(s[0]) && IsBase64Digit(s[1]) && IsBase64Digit(s[2]) && IsBase64Digit(s[3])
    ensures var v0, v1, v2, v3 := Base64Value(s[0]), Base64Value(s[1]), Base64Value(s[2]), Base64Value(s[3]);
            Base64Decode(s) ==
              match Base64Decode(s[4..])
              case None => None
              case Some(rest) => Some([v0 * 4 + v1 / 16, (v1 % 16) * 16 + v2 / 4, (v2 % 4) * 64 + v3] + rest)
  {
  }

  /** The four digits `Base64Encode` writes for three bytes, and the values they read back as. */
  lemma Base64Digits(b0: Byte, b1: Byte, b2: Byte)
    ensures var d0, d1 := Base64Digit(b0 / 4), Base64Digit((b0 % 4) * 16 + b1 / 16);
            var d2, d3 := Base64Digit((b1 % 16) * 4 + b2 / 64), Base64Digit(b2 % 64);
            && IsBase64Digit(d0) && IsBase64Digit(d1) && IsBase64Digit(d2) && IsBase64Digit(d3)
            && Base64Value(d0) * 4 + Base64Value(d1) / 16 == b0
            && (Base64Value(d1) % 16) * 16 + Base64Value(d2) / 4 == b1
            && (Base64Value(d2) % 4) * 64 + Base64Value(d3) == b2
  {
    Base64ValueOfDigit(b0 / 4);
    Base64ValueOfDigit((b0 % 4) * 16 + b1 / 16);
    Base64ValueOfDigit((b1 % 16) * 4 + b2 / 64);
    Base64ValueOfDigit(b2 % 64);
    Base64Group(b0, b1, b2);
  }

  /** The four digits of three bytes, in front of text that decodes, decode to those bytes in front. */
  lemma DecodeEncodedGroup(b0: Byte, b1: Byte, b2: Byte, s: string, t: string, rest: seq<Byte>)
    requires Base64Decode(t) == Some(rest)
    requires s == [Base64Digit(b0 / 4), Base64Digit((b0 % 4) * 16 + b1 / 16),
                   Base64Digit((b1 % 16) * 4 + b2 / 64), Base64Digit(b2 % 64)] + t
    ensures Base64Decode(s) == Some([b0, b1, b2] + rest)
  {
    var d0, d1 := Base64Digit(b0 / 4), Base64Digit((b0 % 4) * 16 + b1 / 16);
    var d2, d3 := Base64Digit((b1 % 16) * 4 + b2 / 64), Base64Digit(b2 % 64);
    Base64Digits(b0, b1, b2);
    assert s[4..] == t;
    assert s[0] == d0 && s[1] == d1 && s[2] == d2 && s[3] == d3;
    DecodeFullGroup(s);
  }

  lemma EncodeGroup(b: seq<Byte>)
    requires |b| >= 3
    ensures Base64Encode(b) == [Base64Digit(b[0] / 4), Base64Digit((b[0] % 4) * 16 + b[1] / 16),
                                Base64Digit((b[1] % 16) * 4 + b[2] / 64), Base64Digit(b[2] % 64)] + Base64Encode(b[3..])
  {
  }

  lemma DecodeGroupFront(b: seq<Byte>, s: string, t: string, rest: seq<Byte>)
    requires |b| >= 3
    requires Base64Decode(t) == Some(rest)
    requires s == [Base64Digit(b[0] / 4), Base64Digit((b[0] % 4) * 16 + b[1] / 16),
                   Base64Digit((b[1] % 16) * 4 + b[2] / 64), Base64Digit(b[2] % 64)] + t
    ensures Base64Decode(s) == Some(b[..3] + rest)
  {
    assert [b[0], b[1], b[2]] == b[..3];
    DecodeEncodedGroup(b[0], b[1], b[2], s, t, rest);
  }

  /** Decoding undoes `Base64Encode`. */
  lemma {:induction false} Base64RoundTrip(b: seq<Byte>)
    ensures Base64Decode(Base64Encode(b)) == Some(b)
  {
    if |b| == 1 {
      Base64LastOne(b);
    } else if |b| == 2 {
      Base64LastTwo(b);
    } else if |b| >= 3 {
      Base64RoundTrip(b[3..]);
      EncodeGroup(b);
      DecodeGroupFront(b, Base64Encode(b), Base64Encode(b[3..]), b[3..]);
      assert b[..3] + b[3..] == b;
    }
  }
}
