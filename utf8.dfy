/**
 * Strict UTF-8, as Python's `bytes.decode("utf-8")` applies it: the well-formed byte
 * sequences of Table 3-7 of the Unicode Standard (no overlong forms, no surrogates, nothing
 * above U+10FFFF). Decoding is partial; `None` stands for the `UnicodeDecodeError`.
 */
module Utf8 {
  import opened Wrappers

  type Byte = b: int | 0 <= b < 0x100

  predicate IsContinuation(b: Byte) {
    0x80 <= b <= 0xBF
  }

  /** The scalar value at the front of `b` and the number of bytes it takes, if well formed. */
  function DecodeScalar(b: seq<Byte>): (r: Option<(char, nat)>)
    requires |b| > 0
    ensures r.Some? ==> 1 <= r.value.1 <= |b|
  {
    var b0: int := b[0];
    if b0 <= 0x7F then Some((b0 as char, 1))
    else if 0xC2 <= b0 <= 0xDF then
      if |b| >= 2 && IsContinuation(b[1]) then Some((Scalar2(b0, b[1]), 2)) else None
    else if 0xE0 <= b0 <= 0xEF then
      var lo := if b0 == 0xE0 then 0xA0 else 0x80;
      var hi := if b0 == 0xED then 0x9F else 0xBF;
      if |b| >= 3 && lo <= b[1] <= hi && IsContinuation(b[2]) then Some((Scalar3(b0, b[1], b[2]), 3)) else None
    else if 0xF0 <= b0 <= 0xF4 then
      var lo := if b0 == 0xF0 then 0x90 else 0x80;
      var hi := if b0 == 0xF4 then 0x8F else 0xBF;
      if |b| >= 4 && lo <= b[1] <= hi && IsContinuation(b[2]) && IsContinuation(b[3]) then
        Some((Scalar4(b0, b[1], b[2], b[3]), 4))
      else None
    else None
  }

  function Scalar2(b0: int, b1: int): char
    requires 0xC2 <= b0 <= 0xDF && 0x80 <= b1 <= 0xBF
  {
    ((b0 - 0xC0) * 0x40 + (b1 - 0x80)) as char
  }

  function Scalar3(b0: int, b1: int, b2: int): char
    requires 0xE0 <= b0 <= 0xEF && 0x80 <= b1 <= 0xBF && 0x80 <= b2 <= 0xBF
    requires b0 == 0xE0 ==> 0xA0 <= b1
    requires b0 == 0xED ==> b1 <= 0x9F
  {
    ((b0 - 0xE0) * 0x1000 + (b1 - 0x80) * 0x40 + (b2 - 0x80)) as char
  }

  function Scalar4(b0: int, b1: int, b2: int, b3: int): char
    requires 0xF0 <= b0 <= 0xF4 && 0x80 <= b1 <= 0xBF && 0x80 <= b2 <= 0xBF && 0x80 <= b3 <= 0xBF
    requires b0 == 0xF0 ==> 0x90 <= b1
    requires b0 == 0xF4 ==> b1 <= 0x8F
  {
    ((b0 - 0xF0) * 0x40000 + (b1 - 0x80) * 0x1000 + (b2 - 0x80) * 0x40 + (b3 - 0x80)) as char
  }

  /** `b.decode("utf-8")`. */
  function Decode(b: seq<Byte>): (r: Option<string>)
    ensures r.Some? ==> |r.value| <= |b| <= 4 * |r.value|
    decreases |b|
  {
    if b == [] then Some([])
    else
      match DecodeScalar(b)
      case None => None
      case Some((c, n)) =>
        match Decode(b[n..])
        case None => None
        case Some(s) => Some([c] + s)
  }

  /** The shortest UTF-8 form of one scalar value. */
  function EncodeScalar(c: char): (r: seq<Byte>)
    ensures 1 <= |r| <= 4
  {
    var cp := c as int;
    if cp < 0x80 then [cp]
    else if cp < 0x800 then [0xC0 + cp / 0x40, 0x80 + cp % 0x40]
    else if cp < 0x10000 then [0xE0 + cp / 0x1000, 0x80 + cp / 0x40 % 0x40, 0x80 + cp % 0x40]
    else [0xF0 + cp / 0x40000, 0x80 + cp / 0x1000 % 0x40, 0x80 + cp / 0x40 % 0x40, 0x80 + cp % 0x40]
  }

  /** `s.encode("utf-8")`. */
  function Encode(s: string): seq<Byte>
    decreases |s|
  {
    if s == [] then [] else EncodeScalar(s[0]) + Encode(s[1..])
  }

  lemma DecodeScalarEncode(c: char, rest: seq<Byte>)
    ensures DecodeScalar(EncodeScalar(c) + rest) == Some((c, |EncodeScalar(c)|))
  {
    var cp := c as int;
    var e := EncodeScalar(c);
    var b := e + rest;
    assert b[..|e|] == e;
    if cp < 0x80 {
    } else if cp < 0x800 {
      Scalar2Encode(c);
    } else if cp < 0x10000 {
      Scalar3Encode(c);
    } else {
      Scalar4Encode(c);
    }
  }

  /** `q * 0x40 + r` splits back into `q` and `r` when `r` fits in six bits. */
  lemma Split6(q: int, r: int)
    requires 0 <= r < 0x40
    ensures (q * 0x40 + r) / 0x40 == q && (q * 0x40 + r) % 0x40 == r
  {
  }

  lemma Split12(q: int, r: int)
    requires 0 <= r < 0x1000
    ensures (q * 0x1000 + r) / 0x1000 == q
  {
  }

  lemma Split18(q: int, r: int)
    requires 0 <= r < 0x40000
    ensures (q * 0x40000 + r) / 0x40000 == q
  {
  }

  lemma Scalar2Encode(c: char)
    requires 0x80 <= c as int < 0x800
    ensures var e := EncodeScalar(c);
      0xC2 <= e[0] <= 0xDF && IsContinuation(e[1]) && Scalar2(e[0], e[1]) == c
  {
    var cp := c as int;
    assert cp == (cp / 0x40) * 0x40 + cp % 0x40;
  }

  lemma Scalar3Encode(c: char)
    requires 0x800 <= c as int < 0x10000
    ensures var e := EncodeScalar(c);
      && 0xE0 <= e[0] <= 0xEF && IsContinuation(e[1]) && IsContinuation(e[2])
      && (e[0] == 0xE0 ==> 0xA0 <= e[1]) && (e[0] == 0xED ==> e[1] <= 0x9F)
      && Scalar3(e[0], e[1], e[2]) == c
  {
    var cp := c as int;
    var q1 := cp / 0x40;
    var x0, x1, x2 := q1 / 0x40, q1 % 0x40, cp % 0x40;
    assert cp == x0 * 0x1000 + x1 * 0x40 + x2;
    Split12(x0, x1 * 0x40 + x2);
    assert x0 == 0xD ==> cp < 0xD800;
  }

  lemma Scalar4Encode(c: char)
    requires 0x10000 <= c as int
    ensures var e := EncodeScalar(c);
      && 0xF0 <= e[0] <= 0xF4 && IsContinuation(e[1]) && IsContinuation(e[2]) && IsContinuation(e[3])
      && (e[0] == 0xF0 ==> 0x90 <= e[1]) && (e[0] == 0xF4 ==> e[1] <= 0x8F)
      && Scalar4(e[0], e[1], e[2], e[3]) == c
  {
    var cp := c as int;
    var q1 := cp / 0x40;
    var q2 := q1 / 0x40;
    var x0, x1, x2, x3 := q2 / 0x40, q2 % 0x40, q1 % 0x40, cp % 0x40;
    assert cp == q2 * 0x1000 + x2 * 0x40 + x3;
    Split12(q2, x2 * 0x40 + x3);
    assert cp == x0 * 0x40000 + x1 * 0x1000 + x2 * 0x40 + x3;
    Split18(x0, x1 * 0x1000 + x2 * 0x40 + x3);
  }

  /** Decoding what was encoded gives the string back. */
  lemma {:induction false} DecodeEncode(s: string)
    ensures Decode(Encode(s)) == Some(s)
    decreases |s|
  {
    if s != [] {
      var e := EncodeScalar(s[0]);
      DecodeScalarEncode(s[0], Encode(s[1..]));
      assert (e + Encode(s[1..]))[|e|..] == Encode(s[1..]);
      DecodeEncode(s[1..]);
      assert [s[0]] + s[1..] == s;
    }
  }

  lemma EncodeDecodeScalar(b: seq<Byte>)
    requires |b| > 0 && DecodeScalar(b).Some?
    ensures EncodeScalar(DecodeScalar(b).value.0) == b[..DecodeScalar(b).value.1]
  {
    var b0: int := b[0];
    if b0 <= 0x7F {
    } else if b0 <= 0xDF {
      EncodeScalar2(b0, b[1]);
    } else if b0 <= 0xEF {
      EncodeScalar3(b0, b[1], b[2]);
    } else {
      EncodeScalar4(b0, b[1], b[2], b[3]);
    }
  }

  lemma EncodeScalar2(b0: int, b1: int)
    requires 0xC2 <= b0 <= 0xDF && 0x80 <= b1 <= 0xBF
    ensures EncodeScalar(Scalar2(b0, b1)) == [b0, b1]
  {
    Split6(b0 - 0xC0, b1 - 0x80);
  }

  lemma EncodeScalar3(b0: int, b1: int, b2: int)
    requires 0xE0 <= b0 <= 0xEF && 0x80 <= b1 <= 0xBF && 0x80 <= b2 <= 0xBF
    requires b0 == 0xE0 ==> 0xA0 <= b1
    requires b0 == 0xED ==> b1 <= 0x9F
    ensures EncodeScalar(Scalar3(b0, b1, b2)) == [b0, b1, b2]
  {
    var x0, x1, x2 := b0 - 0xE0, b1 - 0x80, b2 - 0x80;
    Split6(x0 * 0x40 + x1, x2);
    Split12(x0, x1 * 0x40 + x2);
  }

  lemma EncodeScalar4(b0: int, b1: int, b2: int, b3: int)
    requires 0xF0 <= b0 <= 0xF4 && 0x80 <= b1 <= 0xBF && 0x80 <= b2 <= 0xBF && 0x80 <= b3 <= 0xBF
    requires b0 == 0xF0 ==> 0x90 <= b1
    requires b0 == 0xF4 ==> b1 <= 0x8F
    ensures EncodeScalar(Scalar4(b0, b1, b2, b3)) == [b0, b1, b2, b3]
  {
    var x0, x1, x2, x3 := b0 - 0xF0, b1 - 0x80, b2 - 0x80, b3 - 0x80;
    Split6(x0 * 0x1000 + x1 * 0x40 + x2, x3);
    Split6(x0 * 0x40 + x1, x2);
    Split12(x0 * 0x40 + x1, x2 * 0x40 + x3);
    Split18(x0, x1 * 0x1000 + x2 * 0x40 + x3);
  }

  /** A byte string that decodes is exactly the encoding of what it decodes to. */
  lemma {:induction false} EncodeDecode(b: seq<Byte>)
    requires Decode(b).Some?
    ensures Encode(Decode(b).value) == b
    decreases |b|
  {
    if b != [] {
      var c, n, t := DecodeFront(b);
      EncodeDecode(b[n..]);
      EncodeFront(c, t);
      assert b[..n] + b[n..] == b;
    }
  }

  /**
   * A successful decoding of a non-empty byte string is a first scalar `c`, taken from
   * the `n` bytes that encode it, followed by the decoding `t` of the rest.
   */
  lemma DecodeFront(b: seq<Byte>) returns (c: char, n: nat, t: string)
    requires b != [] && Decode(b).Some?
    ensures 1 <= n <= |b| && EncodeScalar(c) == b[..n]
    ensures Decode(b[n..]) == Some(t) && Decode(b).value == [c] + t
  {
    c := DecodeScalar(b).value.0;
    n := DecodeScalar(b).value.1;
    t := Decode(b[n..]).value;
    EncodeDecodeScalar(b);
  }

  lemma EncodeFront(c: char, t: string)
    ensures Encode([c] + t) == EncodeScalar(c) + Encode(t)
  {
    assert ([c] + t)[0] == c && ([c] + t)[1..] == t;
  }

  predicate IsAscii(s: string) {
    forall i :: 0 <= i < |s| ==> s[i] as int < 0x80
  }

  /** `s.encode("ascii")`: one byte per character. */
  function Ascii(s: string): (r: seq<Byte>)
    requires IsAscii(s)
    ensures |r| == |s|
  {
    seq(|s|, i requires 0 <= i < |s| => s[i] as int)
  }

  /** On ASCII text the UTF-8 encoding is the ASCII encoding. */
  lemma {:induction false} AsciiIsUtf8(s: string)
    requires IsAscii(s)
    ensures Encode(s) == Ascii(s)
    decreases |s|
  {
    if s != [] {
      AsciiIsUtf8(s[1..]);
      assert Ascii(s) == [s[0] as int] + Ascii(s[1..]);
    }
  }

  /** ASCII bytes decode to the same text. */
  lemma AsciiDecodes(s: string)
    requires IsAscii(s)
    ensures Decode(Ascii(s)) == Some(s)
  {
    AsciiIsUtf8(s);
    DecodeEncode(s);
  }
}

