/**
 * UTF-8, as produced by `TextEncoder.encode`. A Dafny `char` is a Unicode
 * scalar value, so every string here is well formed and the encoder never
 * substitutes U+FFFD.
 */
module Utf8 {
  import opened Results
  import opened Bytes

  /** The one to four octets that encode `c`. */
  function EncodeChar(c: char): (r: seq<byte>)
    ensures 1 <= |r| <= 4
  {
    var n := c as int;
    if n < 0x80 then [n]
    else if n < 0x800 then [0xC0 + n / 0x40, 0x80 + n % 0x40]
    else if n < 0x1_0000 then [0xE0 + n / 0x1000, 0x80 + (n / 0x40) % 0x40, 0x80 + n % 0x40]
    else [0xF0 + n / 0x4_0000, 0x80 + (n / 0x1000) % 0x40, 0x80 + (n / 0x40) % 0x40, 0x80 + n % 0x40]
  }

  /** The UTF-8 encoding of `s`: the encodings of its characters, in order. */
  function Encode(s: string): (r: seq<byte>)
    ensures |s| <= |r| <= 4 * |s|
  {
    if s == [] then [] else EncodeChar(s[0]) + Encode(s[1..])
  }

  /** Every character of `s` is ASCII. */
  predicate IsAscii(s: string) {
    forall i :: 0 <= i < |s| ==> s[i] as int < 0x80
  }

  /** On ASCII text the encoding is the identity on code points. */
  lemma {:induction false} EncodeAscii(s: string)
    requires IsAscii(s)
    ensures |Encode(s)| == |s|
    ensures forall i :: 0 <= i < |s| ==> Encode(s)[i] == s[i] as int
  {
    if s != [] {
      EncodeAscii(s[1..]);
    }
  }

  predicate IsContinuation(b: byte) {
    0x80 <= b < 0xC0
  }

  /**
   * The first character of `b` and the number of octets it takes, or None
   * when `b` does not start with a shortest-form encoding of a scalar value.
   */
  function DecodeFirst(b: seq<byte>): (r: Option<(char, nat)>)
    ensures r.Some? ==> 1 <= r.value.1 <= |b|
  {
    if |b| == 0 then None
    else if b[0] < 0x80 then Some((b[0] as char, 1))
    else if 0xC0 <= b[0] < 0xE0 && 2 <= |b| && IsContinuation(b[1]) then
      var n := (b[0] as int - 0xC0) * 0x40 + (b[1] - 0x80);
      if n < 0x80 then None else Some((n as char, 2))
    else if 0xE0 <= b[0] < 0xF0 && 3 <= |b| && IsContinuation(b[1]) && IsContinuation(b[2]) then
      var n := ((b[0] as int - 0xE0) * 0x40 + (b[1] - 0x80)) * 0x40 + (b[2] - 0x80);
      if n < 0x800 || 0xD800 <= n < 0xE000 then None else Some((n as char, 3))
    else if 0xF0 <= b[0] < 0xF8 && 4 <= |b| && IsContinuation(b[1]) && IsContinuation(b[2]) && IsContinuation(b[3]) then
      var n := (((b[0] as int - 0xF0) * 0x40 + (b[1] - 0x80)) * 0x40 + (b[2] - 0x80)) * 0x40 + (b[3] - 0x80);
      if n < 0x1_0000 || 0x11_0000 <= n then None else Some((n as char, 4))
    else None
  }

  /** The string whose UTF-8 encoding is `b`, or None when `b` is not well-formed UTF-8. */
  function Decode(b: seq<byte>): (r: Option<string>)
    decreases |b|
  {
    if b == [] then Some([])
    else match DecodeFirst(b)
      case None => None
      case Some((c, k)) =>
        match Decode(b[k..])
        case None => None
        case Some(rest) => Some([c] + rest)
  }

  /** An encoded character is decoded back, whatever follows it. */
  lemma DecodeFirstEncodeChar(c: char, rest: seq<byte>)
    ensures DecodeFirst(EncodeChar(c) + rest) == Some((c, |EncodeChar(c)|))
  {
    var n := c as int;
    var e := EncodeChar(c);
    var b := e + rest;
    assert b[..|e|] == e;
    if n < 0x80 {
    } else if n < 0x800 {
      assert b[0] == e[0] && b[1] == e[1];
      assert (n / 0x40) * 0x40 + n % 0x40 == n;
    } else if n < 0x1_0000 {
      assert b[0] == e[0] && b[1] == e[1] && b[2] == e[2];
      var q := n / 0x40;
      assert q * 0x40 + n % 0x40 == n;
      assert q / 0x40 == n / 0x1000 && (q / 0x40) * 0x40 + q % 0x40 == q;
    } else {
      assert b[0] == e[0] && b[1] == e[1] && b[2] == e[2] && b[3] == e[3];
      var q := n / 0x40;
      var q' := q / 0x40;
      assert q * 0x40 + n % 0x40 == n;
      assert q' == n / 0x1000 && q' * 0x40 + q % 0x40 == q;
      assert q' / 0x40 == n / 0x4_0000 && (q' / 0x40) * 0x40 + q' % 0x40 == q';
    }
  }

  /** Decoding undoes encoding, so the encoding is one-to-one. */
  lemma {:induction false} DecodeEncode(s: string)
    ensures Decode(Encode(s)) == Some(s)
  {
    if s != [] {
      var e := EncodeChar(s[0]);
      DecodeFirstEncodeChar(s[0], Encode(s[1..]));
      assert (e + Encode(s[1..]))[|e|..] == Encode(s[1..]);
      DecodeEncode(s[1..]);
      assert [s[0]] + s[1..] == s;
    }
  }

  /** Six more low-order bits appended to `q`. */
  lemma DivModSixBits(q: int, r: int)
    requires 0 <= r < 0x40
    ensures (q * 0x40 + r) / 0x40 == q && (q * 0x40 + r) % 0x40 == r
  {
  }

  /** A two-octet sequence with payload bits `d0`, `d1` is the encoding of the value they form. */
  lemma EncodeTwoOctets(d0: int, d1: int)
    requires 0 <= d0 < 0x20 && 0 <= d1 < 0x40 && 0x80 <= d0 * 0x40 + d1
    ensures EncodeChar((d0 * 0x40 + d1) as char) == [0xC0 + d0, 0x80 + d1]
  {
    DivModSixBits(d0, d1);
  }

  /** A three-octet sequence with payload bits `d0`, `d1`, `d2` is the encoding of the value they form. */
  lemma EncodeThreeOctets(d0: int, d1: int, d2: int)
    requires 0 <= d0 < 0x10 && 0 <= d1 < 0x40 && 0 <= d2 < 0x40
    requires var n := (d0 * 0x40 + d1) * 0x40 + d2; 0x800 <= n && !(0xD800 <= n < 0xE000)
    ensures EncodeChar(((d0 * 0x40 + d1) * 0x40 + d2) as char) == [0xE0 + d0, 0x80 + d1, 0x80 + d2]
  {
    var q := d0 * 0x40 + d1;
    DivModSixBits(d0, d1);
    DivModSixBits(q, d2);
    assert (q * 0x40 + d2) / 0x1000 == q / 0x40;
  }

  /** A four-octet sequence with payload bits `d0` to `d3` is the encoding of the value they form. */
  lemma EncodeFourOctets(d0: int, d1: int, d2: int, d3: int)
    requires 0 <= d0 < 0x08 && 0 <= d1 < 0x40 && 0 <= d2 < 0x40 && 0 <= d3 < 0x40
    requires var n := ((d0 * 0x40 + d1) * 0x40 + d2) * 0x40 + d3; 0x1_0000 <= n < 0x11_0000
    ensures EncodeChar((((d0 * 0x40 + d1) * 0x40 + d2) * 0x40 + d3) as char)
         == [0xF0 + d0, 0x80 + d1, 0x80 + d2, 0x80 + d3]
  {
    var q := d0 * 0x40 + d1;
    var q' := q * 0x40 + d2;
    var n := q' * 0x40 + d3;
    DivModSixBits(d0, d1);
    DivModSixBits(q, d2);
    DivModSixBits(q', d3);
    assert n / 0x1000 == q' / 0x40;
    assert n / 0x4_0000 == (q' / 0x40) / 0x40;
  }

  /** The first character decoded is encoded back to the octets it was read from. */
  lemma EncodeCharDecodeFirst(b: seq<byte>)
    requires DecodeFirst(b).Some?
    ensures EncodeChar(DecodeFirst(b).value.0) == b[..DecodeFirst(b).value.1]
  {
    var k := DecodeFirst(b).value.1;
    if b[0] < 0x80 {
      assert b[..k] == [b[0]];
    } else if b[0] < 0xE0 {
      EncodeTwoOctets(b[0] - 0xC0, b[1] - 0x80);
      assert b[..k] == [b[0], b[1]];
    } else if b[0] < 0xF0 {
      EncodeThreeOctets(b[0] - 0xE0, b[1] - 0x80, b[2] - 0x80);
      assert b[..k] == [b[0], b[1], b[2]];
    } else {
      EncodeFourOctets(b[0] - 0xF0, b[1] - 0x80, b[2] - 0x80, b[3] - 0x80);
      assert b[..k] == [b[0], b[1], b[2], b[3]];
    }
  }

  /** Every well-formed byte string is the encoding of the string decoded from it. */
  lemma {:induction false} EncodeDecode(b: seq<byte>)
    requires Decode(b).Some?
    ensures Encode(Decode(b).value) == b
    decreases |b|
  {
    if b != [] {
      var (c, k) := DecodeFirst(b).value;
      EncodeCharDecodeFirst(b);
      EncodeDecode(b[k..]);
      var s := Decode(b).value;
      assert s[0] == c && s[1..] == Decode(b[k..]).value;
      assert b == b[..k] + b[k..];
    }
  }

  /** Distinct strings have distinct encodings. */
  lemma EncodeInjective(s: string, t: string)
    requires Encode(s) == Encode(t)
    ensures s == t
  {
    DecodeEncode(s);
    DecodeEncode(t);
  }
}
