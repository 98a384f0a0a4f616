/**
  Go's `url.QueryUnescape`: `%XX` becomes the byte 0xXX, `+` becomes a
  space, and a `%` not followed by two hex digits is an error.
 */
module Percent {
  import opened Wrappers
  import opened Strings
  import Archive

  predicate IsHex(c: char)
  {
    ('0' <= c <= '9') || ('a' <= c <= 'f') || ('A' <= c <= 'F')
  }

  function HexValue(c: char): (v: nat)
    requires IsHex(c)
    ensures v < 16
  {
    if '0' <= c <= '9' then c as int - '0' as int
    else if 'a' <= c <= 'f' then c as int - 'a' as int + 10
    else c as int - 'A' as int + 10
  }

  /** `url.QueryUnescape`; `None` stands for the returned `EscapeError`. */
  function QueryUnescape(s: string): (r: Option<string>)
    ensures r.Some? ==> |r.value| <= |s|
    ensures r.Some? && Archive.IsByteString(s) ==> Archive.IsByteString(r.value)
  {
    if s == [] then Some([])
    else if s[0] == '%' then
      if |s| >= 3 && IsHex(s[1]) && IsHex(s[2]) then
        match QueryUnescape(s[3..])
        case None => None
        case Some(rest) => Some([(HexValue(s[1]) * 16 + HexValue(s[2])) as char] + rest)
      else None
    else
      match QueryUnescape(s[1..])
      case None => None
      case Some(rest) => Some([if s[0] == '+' then ' ' else s[0]] + rest)
  }

  /** Upper-case hex digit for a value below 16. */
  function HexDigit(v: nat): (c: char)
    requires v < 16
    ensures IsHex(c) && HexValue(c) == v
  {
    if v < 10 then ('0' as int + v) as char else ('A' as int + v - 10) as char
  }

  /** Percent-encodes every byte: the reference encoder the decoder inverts. */
  function PercentEncode(s: string): (r: string)
    requires Archive.IsByteString(s)
    ensures |r| == 3 * |s|
  {
    if s == [] then []
    else
      var b := s[0] as int;
      ['%', HexDigit(b / 16), HexDigit(b % 16)] + PercentEncode(s[1..])
  }

  /** One encoded byte in front of decodable text decodes to that byte. */
  lemma UnescapeTriple(c: char, rest: string, x: string)
    requires c as int < 256 && QueryUnescape(rest) == Some(x)
    ensures QueryUnescape(['%', HexDigit(c as int / 16), HexDigit(c as int % 16)] + rest) == Some([c] + x)
  {
    var b := c as int;
    var t := ['%', HexDigit(b / 16), HexDigit(b % 16)] + rest;
    assert t[3..] == rest;
    assert (b / 16 * 16 + b % 16) as char == c;
  }

  /** Decoding undoes percent-encoding of any byte string. */
  lemma {:induction false} UnescapeEncode(s: string)
    requires Archive.IsByteString(s)
    ensures QueryUnescape(PercentEncode(s)) == Some(s)
    decreases |s|
  {
    if s != [] {
      UnescapeEncode(s[1..]);
      UnescapeTriple(s[0], PercentEncode(s[1..]), s[1..]);
      assert [s[0]] + s[1..] == s;
    }
  }

  /** Text with no `%` and no `+` decodes to itself. */
  lemma {:induction false} UnescapePlain(s: string)
    requires '%' !in s && '+' !in s
    ensures QueryUnescape(s) == Some(s)
    decreases |s|
  {
    if s != [] {
      assert s[0] in s;
      assert forall c :: c in s[1..] ==> c in s;
      UnescapePlain(s[1..]);
      assert [s[0]] + s[1..] == s;
    }
  }

  /** A `%` at position `i` that is not followed by two hex digits. */
  predicate BadEscapeAt(s: string, i: int)
  {
    0 <= i < |s| && s[i] == '%' && !(i + 2 < |s| && IsHex(s[i + 1]) && IsHex(s[i + 2]))
  }

  lemma BadEscapeShift(s: string, d: nat, i: int)
    requires d <= |s| && d <= i
    ensures BadEscapeAt(s, i) <==> BadEscapeAt(s[d..], i - d)
  {
  }

  /**
    Decoding fails exactly when some `%` lacks two hex digits after it;
    the digits of an escape are never `%`, so every `%` starts an escape.
   */
  lemma {:induction false} QueryUnescapeFails(s: string)
    ensures QueryUnescape(s).None? <==> exists i :: BadEscapeAt(s, i)
    decreases |s|
  {
    if s == [] {
    } else if s[0] == '%' && !(|s| >= 3 && IsHex(s[1]) && IsHex(s[2])) {
      assert BadEscapeAt(s, 0);
    } else {
      var d := if s[0] == '%' then 3 else 1;
      QueryUnescapeFails(s[d..]);
      if i :| BadEscapeAt(s, i) {
        assert i >= d;
        BadEscapeShift(s, d, i);
      }
      if j :| BadEscapeAt(s[d..], j) {
        BadEscapeShift(s, d, j + d);
      }
    }
  }

  /** Text without escapes decodes to itself with every `+` turned into a space. */
  lemma {:induction false} UnescapeWithoutEscapes(s: string)
    requires '%' !in s
    ensures QueryUnescape(s) == Some(ReplaceChar(s, '+', " "))
    decreases |s|
  {
    if s != [] {
      assert s[0] in s;
      assert forall c :: c in s[1..] ==> c in s;
      UnescapeWithoutEscapes(s[1..]);
    }
  }
}
