/** PHP's urldecode, which the parser applies to query keys and values, and
    PHP's urlencode, the encoder it undoes. */
module UrlCodec {

  /** isxdigit: 0-9, a-f, A-F. */
  predicate IsHexDigit(c: char) {
    '0' <= c <= '9' || 'a' <= c <= 'f' || 'A' <= c <= 'F'
  }

  function HexValue(c: char): (v: nat)
    requires IsHexDigit(c)
    ensures v < 16
  {
    if '0' <= c <= '9' then c as int - '0' as int
    else if 'a' <= c <= 'f' then c as int - 'a' as int + 10
    else c as int - 'A' as int + 10
  }

  /** The upper-case hex digit urlencode writes for a value below 16. */
  function HexDigit(v: nat): (c: char)
    requires v < 16
    ensures IsHexDigit(c) && HexValue(c) == v
  {
    if v < 10 then ('0' as int + v) as char else ('A' as int + v - 10) as char
  }

  /** A PHP string: every character is one byte. */
  predicate IsByteString(s: string) {
    forall i :: 0 <= i < |s| ==> s[i] as int < 256
  }

  /** A percent sign followed by two hex digits starts `s`. */
  predicate StartsWithEscape(s: string) {
    |s| >= 3 && s[0] == '%' && IsHexDigit(s[1]) && IsHexDigit(s[2])
  }

  /** urldecode: '+' becomes a space, '%' and two hex digits become the byte
      they spell, and every other character, including a '%' that does not
      start such an escape, is copied. */
  function UrlDecode(s: string): (r: string)
    ensures |r| <= |s|
    ensures IsByteString(s) ==> IsByteString(r)
    ensures '%' !in s && '+' !in s ==> r == s
    decreases |s|
  {
    if s == [] then []
    else if s[0] == '+' then [' '] + UrlDecode(s[1..])
    else if StartsWithEscape(s) then
      [(HexValue(s[1]) * 16 + HexValue(s[2])) as char] + UrlDecode(s[3..])
    else [s[0]] + UrlDecode(s[1..])
  }

  /** `e` is one way urldecode accepts of writing the byte `c`: the byte
      itself (unless it is '%' or '+'), '+' for a space, or '%' and two hex
      digits of either case. */
  predicate Spells(e: string, c: char) {
    || (e == [c] && c != '%' && c != '+')
    || (c == ' ' && e == "+")
    || (|e| == 3 && e[0] == '%' && IsHexDigit(e[1]) && IsHexDigit(e[2])
        && HexValue(e[1]) * 16 + HexValue(e[2]) == c as int)
  }

  /** The spellings, one after the other. */
  function Concat(es: seq<string>): string
    decreases |es|
  {
    if es == [] then [] else es[0] + Concat(es[1..])
  }

  lemma DecodeSpelledOne(e: string, c: char, rest: string)
    requires Spells(e, c)
    ensures UrlDecode(e + rest) == [c] + UrlDecode(rest)
  {
    var s := e + rest;
    if e == [c] && c != '%' && c != '+' {
      assert s[0] == c && s[1..] == rest;
    } else if c == ' ' && e == "+" {
      assert s[0] == '+' && s[1..] == rest;
    } else {
      assert s[0] == '%' && s[1] == e[1] && s[2] == e[2];
      assert StartsWithEscape(s);
      assert s[3..] == rest;
    }
  }

  /** urldecode turns any sequence of spellings into the bytes they spell:
      "%20" and "+" both give a space, "%41" gives 'A', and "%2f" and "%2F"
      both give '/'. */
  lemma {:induction false} UrlDecodeSpelled(es: seq<string>, s: string)
    requires |es| == |s|
    requires forall i :: 0 <= i < |s| ==> Spells(es[i], s[i])
    ensures UrlDecode(Concat(es)) == s
    decreases |s|
  {
    if s != [] {
      assert forall i :: 0 <= i < |s| - 1 ==> es[1..][i] == es[i + 1] && s[1..][i] == s[i + 1];
      UrlDecodeSpelled(es[1..], s[1..]);
      DecodeSpelledOne(es[0], s[0], Concat(es[1..]));
      assert s == [s[0]] + s[1..];
    }
  }

  /** A '%' that does not start an escape is copied as it is. */
  lemma BadPercent(rest: string)
    requires !StartsWithEscape("%" + rest)
    ensures UrlDecode("%" + rest) == "%" + UrlDecode(rest)
  {
    assert ("%" + rest)[1..] == rest;
  }

  /** The characters urlencode leaves alone. */
  predicate IsUnreserved(c: char) {
    'a' <= c <= 'z' || 'A' <= c <= 'Z' || '0' <= c <= '9' || c == '-' || c == '_' || c == '.'
  }

  function EncodeByte(c: char): (r: string)
    requires c as int < 256
    ensures 1 <= |r| <= 3
  {
    if IsUnreserved(c) then [c]
    else if c == ' ' then "+"
    else ['%', HexDigit(c as int / 16), HexDigit(c as int % 16)]
  }

  /** urlencode: unreserved characters as they are, a space as '+', every
      other byte as '%' and two upper-case hex digits. */
  function UrlEncode(s: string): (r: string)
    requires IsByteString(s)
    ensures |s| <= |r| <= 3 * |s|
    ensures forall i :: 0 <= i < |r| ==> IsUnreserved(r[i]) || r[i] == '%' || r[i] == '+'
    decreases |s|
  {
    if s == [] then [] else EncodeByte(s[0]) + UrlEncode(s[1..])
  }

  lemma DecodeEncodedByte(c: char, rest: string)
    requires c as int < 256
    ensures UrlDecode(EncodeByte(c) + rest) == [c] + UrlDecode(rest)
  {
    var e := EncodeByte(c) + rest;
    if IsUnreserved(c) {
      assert e[1..] == rest;
    } else if c == ' ' {
      assert e[1..] == rest;
    } else {
      assert StartsWithEscape(e);
      assert e[3..] == rest;
      assert HexValue(e[1]) * 16 + HexValue(e[2]) == c as int;
    }
  }

  /** urldecode undoes urlencode on every PHP string. */
  lemma {:induction false} UrlDecodeEncode(s: string)
    requires IsByteString(s)
    ensures UrlDecode(UrlEncode(s)) == s
    decreases |s|
  {
    if s != [] {
      DecodeEncodedByte(s[0], UrlEncode(s[1..]));
      UrlDecodeEncode(s[1..]);
    }
  }
}
