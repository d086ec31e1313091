/**
 * PHP's urlencode and urldecode. PHP strings are byte strings; here a character stands for
 * one byte, and the round trip is stated for strings whose characters are all below 256.
 *
 * urlencode keeps ASCII letters, digits and "-", "_", ".", turns a space into "+", and
 * writes every other byte as "%" followed by two upper-case hexadecimal digits.
 * urldecode turns "+" into a space, "%" followed by two hexadecimal digits (of either
 * case) into that byte, and keeps every other character, including a "%" that is not
 * followed by two hexadecimal digits.
 */
module UrlEncoding {

  /** The characters urlencode leaves as they are. */
  predicate Unreserved(c: char) {
    ('a' <= c <= 'z') || ('A' <= c <= 'Z') || ('0' <= c <= '9') || c == '-' || c == '_' || c == '.'
  }

  /** Every character of a byte string is a byte. */
  predicate IsByteString(s: string) {
    forall i :: 0 <= i < |s| ==> s[i] as int < 256
  }

  function HexDigit(n: nat): (c: char)
    requires n < 16
    ensures ('0' <= c <= '9') || ('A' <= c <= 'F')
  {
    if n < 10 then ('0' as int + n) as char else ('A' as int + n - 10) as char
  }

  predicate IsHexDigit(c: char) {
    ('0' <= c <= '9') || ('A' <= c <= 'F') || ('a' <= c <= 'f')
  }

  function HexValue(c: char): (n: nat)
    requires IsHexDigit(c)
    ensures n < 16
  {
    if '0' <= c <= '9' then c as int - '0' as int
    else if 'A' <= c <= 'F' then c as int - 'A' as int + 10
    else c as int - 'a' as int + 10
  }

  /** The encoding of one byte. */
  function EncodeChar(c: char): (r: string)
    ensures forall i :: 0 <= i < |r| ==> Unreserved(r[i]) || r[i] == '+' || r[i] == '%'
  {
    if Unreserved(c) then [c]
    else if c == ' ' then "+"
    else
      var b := c as int % 256;
      ['%', HexDigit(b / 16), HexDigit(b % 16)]
  }

  function UrlEncode(s: string): (r: string)
    ensures forall i :: 0 <= i < |r| ==> Unreserved(r[i]) || r[i] == '+' || r[i] == '%'
    ensures |s| <= |r| <= 3 * |s|
  {
    if s == [] then [] else EncodeChar(s[0]) + UrlEncode(s[1..])
  }

  function UrlDecode(s: string): (r: string)
    ensures |r| <= |s|
  {
    if s == [] then []
    else if s[0] == '+' then [' '] + UrlDecode(s[1..])
    else if s[0] == '%' && |s| >= 3 && IsHexDigit(s[1]) && IsHexDigit(s[2]) then
      [(16 * HexValue(s[1]) + HexValue(s[2])) as char] + UrlDecode(s[3..])
    else [s[0]] + UrlDecode(s[1..])
  }

  /** The encoding of a byte string holds none of the characters that delimit URL parts. */
  lemma EncodedHasNoDelimiters(s: string)
    ensures forall i :: 0 <= i < |UrlEncode(s)| ==>
      UrlEncode(s)[i] !in {'/', '?', '&', '#', '=', ' '}
  {
  }

  /** The two hexadecimal digits urlencode writes read back as the byte. */
  lemma HexRoundTrip(b: nat)
    requires b < 256
    ensures IsHexDigit(HexDigit(b / 16)) && IsHexDigit(HexDigit(b % 16))
    ensures 16 * HexValue(HexDigit(b / 16)) + HexValue(HexDigit(b % 16)) == b
  {
  }

  /** urldecode reads a well-formed escape at the front as one byte. */
  lemma DecodeEscapeFront(h1: char, h2: char, t: string)
    requires IsHexDigit(h1) && IsHexDigit(h2)
    ensures UrlDecode(['%', h1, h2] + t) == [(16 * HexValue(h1) + HexValue(h2)) as char] + UrlDecode(t)
  {
    var s := ['%', h1, h2] + t;
    assert s[0] == '%' && s[1] == h1 && s[2] == h2 && s[3..] == t;
  }

  /** A byte that is neither unreserved nor a space is written as a percent escape. */
  lemma EscapeForm(c: char)
    requires c as int < 256 && !Unreserved(c) && c != ' '
    ensures EncodeChar(c) == ['%', HexDigit(c as int / 16), HexDigit(c as int % 16)]
  {
    var b := c as int;
    assert b % 256 == b;
  }

  /** Decoding a percent escape, followed by anything. */
  lemma DecodeEscape(c: char, t: string)
    requires c as int < 256 && !Unreserved(c) && c != ' '
    ensures UrlDecode(EncodeChar(c) + t) == [c] + UrlDecode(t)
  {
    var b := c as int;
    var h1, h2 := HexDigit(b / 16), HexDigit(b % 16);
    HexRoundTrip(b);
    EscapeForm(c);
    DecodeEscapeFront(h1, h2, t);
    assert (16 * HexValue(h1) + HexValue(h2)) as char == c;
  }

  /** Decoding the encoding of one byte, followed by anything, gives the byte back first. */
  lemma DecodeEncodedChar(c: char, t: string)
    requires c as int < 256
    ensures UrlDecode(EncodeChar(c) + t) == [c] + UrlDecode(t)
  {
    if Unreserved(c) || c == ' ' {
      assert (EncodeChar(c) + t)[1..] == t;
    } else {
      DecodeEscape(c, t);
    }
  }

  /** urldecode(urlencode(s)) == s for every byte string. */
  lemma {:induction false} UrlDecodeEncode(s: string)
    requires IsByteString(s)
    ensures UrlDecode(UrlEncode(s)) == s
  {
    if s != [] {
      DecodeEncodedChar(s[0], UrlEncode(s[1..]));
      UrlDecodeEncode(s[1..]);
      assert s == [s[0]] + s[1..];
    }
  }
}
