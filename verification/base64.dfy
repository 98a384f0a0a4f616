/**
  Standard base64 with padding (the alphabet of section 4 of RFC 4648),
  as produced by Go's `base64.StdEncoding.EncodeToString`, together with
  a decoder that inverts it.
 */
module Base64 {
  import opened Wrappers
  import opened Archive

  type sextet = x: int | 0 <= x < 64

  /** The RFC 4648 alphabet: A-Z, a-z, 0-9, '+', '/'. */
  function Symbol(v: sextet): (c: char)
    ensures c != '='
  {
    if v < 26 then ('A' as int + v) as char
    else if v < 52 then ('a' as int + v - 26) as char
    else if v < 62 then ('0' as int + v - 52) as char
    else if v == 62 then '+'
    else '/'
  }

  function Value(c: char): (r: Option<sextet>)
  {
    if 'A' <= c <= 'Z' then Some(c as int - 'A' as int)
    else if 'a' <= c <= 'z' then Some(c as int - 'a' as int + 26)
    else if '0' <= c <= '9' then Some(c as int - '0' as int + 52)
    else if c == '+' then Some(62)
    else if c == '/' then Some(63)
    else None
  }

  lemma ValueOfSymbol(v: sextet)
    ensures Value(Symbol(v)) == Some(v)
  {
  }

  /** Four symbols for three bytes. */
  function EncodeGroup(b0: byte, b1: byte, b2: byte): (r: string)
    ensures |r| == 4 && '=' !in r
  {
    [Symbol(b0 / 4), Symbol((b0 % 4) * 16 + b1 / 16), Symbol((b1 % 16) * 4 + b2 / 64), Symbol(b2 % 64)]
  }

  /** `StdEncoding.EncodeToString`. */
  function Encode(data: seq<byte>): (r: string)
    ensures |r| == 4 * ((|data| + 2) / 3)
    ensures data != [] ==> |r| >= 4
    decreases |data|
  {
    if |data| == 0 then ""
    else if |data| == 1 then
      [Symbol(data[0] / 4), Symbol((data[0] % 4) * 16), '=', '=']
    else if |data| == 2 then
      [Symbol(data[0] / 4), Symbol((data[0] % 4) * 16 + data[1] / 16), Symbol((data[1] % 16) * 4), '=']
    else
      EncodeGroup(data[0], data[1], data[2]) + Encode(data[3..])
  }

  /** The three bytes carried by four symbol values. */
  function Bytes3(a: sextet, b: sextet, c: sextet, d: sextet): (r: seq<byte>)
    ensures |r| == 3
  {
    var x0: byte := a * 4 + b / 16;
    var x1: byte := (b % 16) * 16 + c / 4;
    var x2: byte := (c % 4) * 64 + d;
    [x0, x1, x2]
  }

  predicate AllSymbols(q: string)
  {
    forall i :: 0 <= i < |q| ==> Value(q[i]).Some?
  }

  /** Decodes one unpadded group of four symbols. */
  function DecodeGroup(q: string): (r: Option<seq<byte>>)
    requires |q| == 4
  {
    if AllSymbols(q) then
      Some(Bytes3(Value(q[0]).value, Value(q[1]).value, Value(q[2]).value, Value(q[3]).value))
    else None
  }

  /** Decodes the last group, which may carry one or two padding symbols. */
  function DecodeFinal(q: string): (r: Option<seq<byte>>)
    requires |q| == 4
  {
    if q[2] == '=' && q[3] == '=' then
      if AllSymbols(q[..2]) then Some(Bytes3(Value(q[0]).value, Value(q[1]).value, 0, 0)[..1]) else None
    else if q[3] == '=' then
      if AllSymbols(q[..3]) then Some(Bytes3(Value(q[0]).value, Value(q[1]).value, Value(q[2]).value, 0)[..2]) else None
    else DecodeGroup(q)
  }

  /** Padded base64 decoding; `None` for text that is not a padded encoding. */
  function Decode(s: string): (r: Option<seq<byte>>)
    decreases |s|
  {
    if |s| == 0 then Some([])
    else if |s| < 4 then None
    else if |s| == 4 then DecodeFinal(s)
    else
      match (DecodeGroup(s[..4]), Decode(s[4..]))
      case (Some(g), Some(rest)) => Some(g + rest)
      case _ => None
  }

  /** A high part and a low nibble packed side by side separate again. */
  lemma Unpack16(hi: nat, lo: nat)
    requires lo < 16
    ensures (hi * 16 + lo) / 16 == hi && (hi * 16 + lo) % 16 == lo
  {
  }

  /** A high part and a low two-bit field packed side by side separate again. */
  lemma Unpack4(hi: nat, lo: nat)
    requires lo < 4
    ensures (hi * 4 + lo) / 4 == hi && (hi * 4 + lo) % 4 == lo
  {
  }

  lemma SplitByte0(b0: byte, b1: byte)
    ensures (b0 / 4) * 4 + ((b0 % 4) * 16 + b1 / 16) / 16 == b0
  {
    Unpack16(b0 % 4, b1 / 16);
  }

  lemma SplitByte1(b0: byte, b1: byte, b2: byte)
    ensures (((b0 % 4) * 16 + b1 / 16) % 16) * 16 + ((b1 % 16) * 4 + b2 / 64) / 4 == b1
  {
    Unpack16(b0 % 4, b1 / 16);
    Unpack4(b1 % 16, b2 / 64);
  }

  lemma SplitByte2(b1: byte, b2: byte)
    ensures (((b1 % 16) * 4 + b2 / 64) % 4) * 64 + b2 % 64 == b2
  {
    Unpack4(b1 % 16, b2 / 64);
  }

  lemma GroupDecodes(a: sextet, b: sextet, c: sextet, d: sextet)
    ensures DecodeGroup([Symbol(a), Symbol(b), Symbol(c), Symbol(d)]) == Some(Bytes3(a, b, c, d))
  {
    var q := [Symbol(a), Symbol(b), Symbol(c), Symbol(d)];
    ValueOfSymbol(a);
    ValueOfSymbol(b);
    ValueOfSymbol(c);
    ValueOfSymbol(d);
    assert AllSymbols(q);
  }

  lemma ThreeBytes(b0: byte, b1: byte, b2: byte)
    ensures Bytes3(b0 / 4, (b0 % 4) * 16 + b1 / 16, (b1 % 16) * 4 + b2 / 64, b2 % 64) == [b0, b1, b2]
  {
    SplitByte0(b0, b1);
    SplitByte1(b0, b1, b2);
    SplitByte2(b1, b2);
  }

  lemma GroupRoundTrip(b0: byte, b1: byte, b2: byte)
    ensures DecodeGroup(EncodeGroup(b0, b1, b2)) == Some([b0, b1, b2])
  {
    GroupDecodes(b0 / 4, (b0 % 4) * 16 + b1 / 16, (b1 % 16) * 4 + b2 / 64, b2 % 64);
    ThreeBytes(b0, b1, b2);
  }

  lemma RoundTripOne(data: seq<byte>)
    requires |data| == 1
    ensures Decode(Encode(data)) == Some(data)
  {
    var a: sextet := data[0] / 4;
    var b: sextet := (data[0] % 4) * 16;
    var q := Encode(data);
    assert q == [Symbol(a), Symbol(b), '=', '='];
    ValueOfSymbol(a);
    ValueOfSymbol(b);
    assert AllSymbols(q[..2]);
    assert Decode(q) == DecodeFinal(q);
    assert DecodeFinal(q) == Some(Bytes3(a, b, 0, 0)[..1]);
    SplitByte0(data[0], 0);
    assert Bytes3(a, b, 0, 0)[0] == data[0];
    assert Bytes3(a, b, 0, 0)[..1] == data;
  }

  lemma TwoBytes(x: byte, y: byte)
    ensures Bytes3(x / 4, (x % 4) * 16 + y / 16, (y % 16) * 4, 0)[..2] == [x, y]
  {
    var r := Bytes3(x / 4, (x % 4) * 16 + y / 16, (y % 16) * 4, 0);
    SplitByte0(x, y);
    SplitByte1(x, y, 0);
    assert r[0] == x && r[1] == y;
  }

  lemma PairDecodes(a: sextet, b: sextet, c: sextet)
    ensures Decode([Symbol(a), Symbol(b), Symbol(c), '=']) == Some(Bytes3(a, b, c, 0)[..2])
  {
    var q := [Symbol(a), Symbol(b), Symbol(c), '='];
    ValueOfSymbol(a);
    ValueOfSymbol(b);
    ValueOfSymbol(c);
    assert AllSymbols(q[..3]);
    assert Decode(q) == DecodeFinal(q);
  }

  lemma RoundTripTwo(data: seq<byte>)
    requires |data| == 2
    ensures Decode(Encode(data)) == Some(data)
  {
    var x, y := data[0], data[1];
    PairDecodes(x / 4, (x % 4) * 16 + y / 16, (y % 16) * 4);
    TwoBytes(x, y);
    assert [x, y] == data;
  }

  lemma RoundTripThree(data: seq<byte>)
    requires |data| == 3
    ensures Decode(Encode(data)) == Some(data)
  {
    var g := EncodeGroup(data[0], data[1], data[2]);
    GroupRoundTrip(data[0], data[1], data[2]);
    assert data[3..] == [];
    assert Encode(data) == g;
    assert g[3] in g;
    assert g[2] in g;
    assert DecodeFinal(g) == DecodeGroup(g);
    assert data == [data[0], data[1], data[2]];
  }

  /** A full group in front of a non-empty decodable text decodes to both parts in order. */
  lemma DecodeCons(g: string, rest: string, x: seq<byte>, y: seq<byte>)
    requires |g| == 4 && |rest| > 0
    requires DecodeGroup(g) == Some(x) && Decode(rest) == Some(y)
    ensures Decode(g + rest) == Some(x + y)
  {
    var s := g + rest;
    assert s[..4] == g;
    assert s[4..] == rest;
  }

  lemma EncodeUnfold(x0: byte, x1: byte, x2: byte, tail: seq<byte>)
    requires tail != []
    ensures Encode([x0, x1, x2] + tail) == EncodeGroup(x0, x1, x2) + Encode(tail)
  {
    var data := [x0, x1, x2] + tail;
    assert data[3..] == tail;
  }

  lemma RoundTripStep(x0: byte, x1: byte, x2: byte, tail: seq<byte>)
    requires tail != [] && Decode(Encode(tail)) == Some(tail)
    ensures Decode(Encode([x0, x1, x2] + tail)) == Some([x0, x1, x2] + tail)
  {
    EncodeUnfold(x0, x1, x2, tail);
    GroupRoundTrip(x0, x1, x2);
    DecodeCons(EncodeGroup(x0, x1, x2), Encode(tail), [x0, x1, x2], tail);
  }

  /** Decoding inverts encoding: the payload of an inlined asset yields its bytes back. */
  lemma {:induction false} DecodeEncode(data: seq<byte>)
    ensures Decode(Encode(data)) == Some(data)
    decreases |data|
  {
    if |data| == 1 {
      RoundTripOne(data);
    } else if |data| == 2 {
      RoundTripTwo(data);
    } else if |data| == 3 {
      RoundTripThree(data);
    } else if |data| > 3 {
      var tail := data[3..];
      assert data == [data[0], data[1], data[2]] + tail;
      DecodeEncode(tail);
      RoundTripStep(data[0], data[1], data[2], tail);
    }
  }
}
