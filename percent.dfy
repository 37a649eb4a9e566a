/** Percent-encoding (section 2.1 of RFC 3986) as the reply body uses it: the decoder
    stands for `Uri.UnescapeDataString`, the encoder is the reference a server uses to
    produce such a body. */
module Percent {
  import opened Text

  predicate IsHexDigit(c: char) {
    ('0' <= c <= '9') || ('A' <= c <= 'F') || ('a' <= c <= 'f')
  }

  /** The value of a hexadecimal digit; upper and lower case are equivalent. */
  function HexValue(c: char): (v: nat)
    requires IsHexDigit(c)
    ensures v < 16
  {
    if '0' <= c <= '9' then c as int - '0' as int
    else if 'A' <= c <= 'F' then c as int - 'A' as int + 10
    else c as int - 'a' as int + 10
  }

  /** `s` starts with a well-formed escape `%XY` of a character below U+0080. */
  predicate StartsWithEscape(s: string) {
    |s| >= 3 && s[0] == '%' && IsHexDigit(s[1]) && IsHexDigit(s[2]) && HexValue(s[1]) < 8
  }

  /** Replaces every escape `%XY` of an ASCII character by that character and leaves
      everything else, including malformed escapes, as it is. */
  function PercentDecode(s: string): (r: string)
    ensures |r| <= |s|
    ensures '%' !in s ==> r == s
  {
    if s == [] then ""
    else if StartsWithEscape(s) then
      [(HexValue(s[1]) * 16 + HexValue(s[2])) as char] + PercentDecode(s[3..])
    else
      assert s == [s[0]] + s[1..];
      [s[0]] + PercentDecode(s[1..])
  }

  /** The unreserved characters of section 2.3 of RFC 3986. */
  predicate IsUnreserved(c: char) {
    ('A' <= c <= 'Z') || ('a' <= c <= 'z') || ('0' <= c <= '9') || c == '-' || c == '.' || c == '_' || c == '~'
  }

  /** The upper-case hexadecimal digit for `d`. */
  function HexDigit(d: nat): (c: char)
    requires d < 16
    ensures IsHexDigit(c) && IsUnreserved(c) && HexValue(c) == d
  {
    if d < 10 then ('0' as int + d) as char else ('A' as int + d - 10) as char
  }

  function EscapeChar(c: char): (r: string)
    requires c as int < 0x80
    ensures forall i :: 0 <= i < |r| ==> IsUnreserved(r[i]) || r[i] == '%'
  {
    if IsUnreserved(c) then [c] else ['%', HexDigit(c as int / 16), HexDigit(c as int % 16)]
  }

  /** Escapes every ASCII character that is not unreserved. */
  function PercentEncode(s: string): (r: string)
    requires IsAscii(s)
    ensures forall i :: 0 <= i < |r| ==> IsUnreserved(r[i]) || r[i] == '%'
  {
    if s == [] then "" else EscapeChar(s[0]) + PercentEncode(s[1..])
  }

  lemma DecodeEscaped(c: char, rest: string)
    requires c as int < 0x80
    ensures PercentDecode(EscapeChar(c) + rest) == [c] + PercentDecode(rest)
  {
    var t := EscapeChar(c) + rest;
    if IsUnreserved(c) {
      assert t[0] == c && t[1..] == rest;
    } else {
      var hi, lo := HexDigit(c as int / 16), HexDigit(c as int % 16);
      assert t[1] == hi && t[2] == lo && t[3..] == rest;
      assert StartsWithEscape(t);
      assert HexValue(hi) * 16 + HexValue(lo) == c as int;
    }
  }

  /** Decoding undoes encoding. */
  lemma {:induction false} DecodeEncode(s: string)
    requires IsAscii(s)
    ensures PercentDecode(PercentEncode(s)) == s
  {
    if s != [] {
      DecodeEncode(s[1..]);
      DecodeEscaped(s[0], PercentEncode(s[1..]));
      assert s == [s[0]] + s[1..];
    }
  }
}
