/**
 * UTF-8 as Python's `str.encode("utf-8")` and strict `bytes.decode("utf-8")` use it
 * (RFC 3629): a Dafny `char` is a Unicode scalar value, so every string encodes, and the
 * decoder accepts exactly the byte strings that are encodings of some string.
 */
module Utf8 {
  import opened Bytes
  import opened Optional
  import opened Seqs

  /** A continuation byte, `10xxxxxx`. */
  predicate IsCont(b: byte) {
    0x80 <= b < 0xC0
  }

  /** The one to four bytes that encode `c`. */
  function EncodeChar(c: char): (r: seq<byte>)
    ensures 1 <= |r| <= 4
    ensures |r| == 1 <==> c as int < 0x80
  {
    var cp := c as int;
    if cp < 0x80 then [cp as byte]
    else if cp < 0x800 then
      [(0xC0 + cp / 0x40) as byte, (0x80 + cp % 0x40) as byte]
    else if cp < 0x1_0000 then
      [(0xE0 + cp / 0x1000) as byte, (0x80 + cp / 0x40 % 0x40) as byte, (0x80 + cp % 0x40) as byte]
    else
      [(0xF0 + cp / 0x4_0000) as byte, (0x80 + cp / 0x1000 % 0x40) as byte,
       (0x80 + cp / 0x40 % 0x40) as byte, (0x80 + cp % 0x40) as byte]
  }

  /** `s.encode("utf-8")`. */
  function Encode(s: string): (r: seq<byte>)
    ensures |s| <= |r| <= 4 * |s|
  {
    if s == [] then [] else EncodeChar(s[0]) + Encode(s[1..])
  }

  /**
   * Decodes the character at the front of `b` and says how many bytes it took; `None`
   * for a malformed, overlong, surrogate or out-of-range sequence, or one cut short.
   */
  function DecodeChar(b: seq<byte>): (r: Option<(char, nat)>)
    requires |b| > 0
    ensures r.Some? ==> 1 <= r.value.1 <= |b| && r.value.1 <= 4
  {
    var b0 := b[0] as int;
    if b0 < 0x80 then Some((b0 as char, 1))
    else if 0xC2 <= b0 < 0xE0 then
      if |b| < 2 || !IsCont(b[1]) then None
      else
        var cp := (b0 - 0xC0) * 0x40 + (b[1] as int - 0x80);
        Some((cp as char, 2))
    else if 0xE0 <= b0 < 0xF0 then
      if |b| < 3 || !IsCont(b[1]) || !IsCont(b[2]) then None
      else
        var cp := (b0 - 0xE0) * 0x1000 + (b[1] as int - 0x80) * 0x40 + (b[2] as int - 0x80);
        if cp < 0x800 || 0xD800 <= cp < 0xE000 then None
        else Some((cp as char, 3))
    else if 0xF0 <= b0 < 0xF5 then
      if |b| < 4 || !IsCont(b[1]) || !IsCont(b[2]) || !IsCont(b[3]) then None
      else
        var cp := (b0 - 0xF0) * 0x4_0000 + (b[1] as int - 0x80) * 0x1000
                  + (b[2] as int - 0x80) * 0x40 + (b[3] as int - 0x80);
        if cp < 0x1_0000 || 0x11_0000 <= cp then None
        else Some((cp as char, 4))
    else None
  }

  /** Strict `b.decode("utf-8")`: `None` where Python raises `UnicodeDecodeError`. */
  function Decode(b: seq<byte>): (r: Option<string>)
    ensures r.Some? ==> |r.value| <= |b| <= 4 * |r.value|
    decreases |b|
  {
    if b == [] then Some([])
    else
      match DecodeChar(b)
      case None => None
      case Some((c, n)) =>
        match Decode(b[n..])
        case None => None
        case Some(s) => Some([c] + s)
  }

  lemma {:induction false} EncodeAppend(s: string, t: string)
    ensures Encode(s + t) == Encode(s) + Encode(t)
  {
    if s == [] {
      assert s + t == t;
    } else {
      assert (s + t)[0] == s[0] && (s + t)[1..] == s[1..] + t;
      EncodeAppend(s[1..], t);
      calc {
        Encode(s + t);
        EncodeChar(s[0]) + Encode(s[1..] + t);
        EncodeChar(s[0]) + (Encode(s[1..]) + Encode(t));
        (EncodeChar(s[0]) + Encode(s[1..])) + Encode(t);
      }
    }
  }

  /** Each ASCII character is the one byte of its code. */
  lemma {:induction false} EncodeAscii(s: string)
    requires forall i :: 0 <= i < |s| ==> s[i] as int < 0x80
    ensures |Encode(s)| == |s|
    ensures forall i :: 0 <= i < |s| ==> Encode(s)[i] as int == s[i] as int
  {
    if s != [] {
      EncodeAscii(s[1..]);
    }
  }

  lemma Split2(cp: int)
    requires 0 <= cp
    ensures cp == cp / 0x40 * 0x40 + cp % 0x40
  {
  }

  lemma Split3(cp: int)
    requires 0 <= cp
    ensures cp / 0x40 / 0x40 == cp / 0x1000
    ensures cp == cp / 0x1000 * 0x1000 + cp / 0x40 % 0x40 * 0x40 + cp % 0x40
  {
    DivDiv(cp, 0x40, 0x40);
  }

  lemma Split4(cp: int)
    requires 0 <= cp
    ensures cp == cp / 0x4_0000 * 0x4_0000 + cp / 0x1000 % 0x40 * 0x1000
                  + cp / 0x40 % 0x40 * 0x40 + cp % 0x40
  {
    Split3(cp);
    DivDiv(cp, 0x1000, 0x40);
  }

  /** The decoder reads back the character that was encoded, whatever follows it. */
  lemma DecodeEncodeChar(c: char, rest: seq<byte>)
    ensures DecodeChar(EncodeChar(c) + rest) == Some((c, |EncodeChar(c)|))
  {
    var cp := c as int;
    var b := EncodeChar(c) + rest;
    if cp < 0x80 {
    } else if cp < 0x800 {
      Split2(cp);
    } else if cp < 0x1_0000 {
      Split3(cp);
    } else {
      Split4(cp);
    }
  }

  /** Base-64 digits of a number below 2^21, as the continuation bytes carry them. */
  lemma Digits(cp: int, d3: int, d2: int, d1: int, d0: int)
    requires 0 <= d0 < 0x40 && 0 <= d1 < 0x40 && 0 <= d2 < 0x40 && 0 <= d3
    requires cp == d3 * 0x4_0000 + d2 * 0x1000 + d1 * 0x40 + d0
    ensures cp % 0x40 == d0 && cp / 0x40 % 0x40 == d1 && cp / 0x1000 % 0x40 == d2
    ensures cp / 0x40 == d3 * 0x1000 + d2 * 0x40 + d1
    ensures cp / 0x1000 == d3 * 0x40 + d2
    ensures cp / 0x4_0000 == d3
  {
    DivUnique(cp, 0x40, d3 * 0x1000 + d2 * 0x40 + d1, d0);
    DivUnique(cp, 0x1000, d3 * 0x40 + d2, d1 * 0x40 + d0);
    DivUnique(cp, 0x4_0000, d3, d2 * 0x1000 + d1 * 0x40 + d0);
    DivUnique(cp / 0x40, 0x40, d3 * 0x40 + d2, d1);
    DivUnique(cp / 0x1000, 0x40, d3, d2);
  }

  /** Whatever the decoder accepts at the front of `b` is the encoding of the character it returns. */
  lemma EncodeDecodeChar(b: seq<byte>)
    requires |b| > 0 && DecodeChar(b).Some?
    ensures b[..DecodeChar(b).value.1] == EncodeChar(DecodeChar(b).value.0)
  {
    var (c, n) := DecodeChar(b).value;
    var cp := c as int;
    if n == 2 {
      Digits(cp, 0, 0, b[0] as int - 0xC0, b[1] as int - 0x80);
    } else if n == 3 {
      Digits(cp, 0, b[0] as int - 0xE0, b[1] as int - 0x80, b[2] as int - 0x80);
    } else if n == 4 {
      Digits(cp, b[0] as int - 0xF0, b[1] as int - 0x80, b[2] as int - 0x80, b[3] as int - 0x80);
    }
  }

  lemma {:induction false} DecodeEncode(s: string)
    ensures Decode(Encode(s)) == Some(s)
  {
    if s != [] {
      var e := EncodeChar(s[0]);
      DecodeEncodeChar(s[0], Encode(s[1..]));
      assert Encode(s) == e + Encode(s[1..]);
      assert Encode(s)[|e|..] == Encode(s[1..]);
      DecodeEncode(s[1..]);
      assert [s[0]] + s[1..] == s;
    }
  }

  lemma {:induction false} EncodeDecode(b: seq<byte>)
    requires Decode(b).Some?
    ensures Encode(Decode(b).value) == b
    decreases |b|
  {
    if b != [] {
      var (c, n) := DecodeChar(b).value;
      var t := Decode(b[n..]).value;
      var s := [c] + t;
      assert Decode(b) == Some(s);
      assert Encode(s) == EncodeChar(c) + Encode(t) by {
        assert s[0] == c && s[1..] == t;
      }
      EncodeDecodeChar(b);
      EncodeDecode(b[n..]);
      SplitAt(b, n);
    }
  }

  /** Decoding succeeds with `s` exactly when the bytes are the encoding of `s`. */
  lemma DecodeIff(b: seq<byte>, s: string)
    ensures Decode(b) == Some(s) <==> b == Encode(s)
  {
    if Decode(b) == Some(s) {
      EncodeDecode(b);
    }
    if b == Encode(s) {
      DecodeEncode(s);
    }
  }
}
