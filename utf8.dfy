/**
 * UTF-8 as Python's `str.encode()` and strict `bytes.decode()` use it
 * (RFC 3629). A Dafny `char` is a Unicode scalar value, so every string
 * here is one that Python can encode.
 */
module Utf8 {
  import opened Wrappers

  /** The one to four bytes of `c` (section 3 of RFC 3629). */
  function EncodeChar(c: char): (r: Bytes)
    ensures 1 <= |r| <= 4
  {
    var cp := c as int;
    if cp < 0x80 then
      [cp]
    else if cp < 0x800 then
      [0xC0 + cp / 64, 0x80 + cp % 64]
    else if cp < 0x10000 then
      [0xE0 + cp / 4096, 0x80 + cp / 64 % 64, 0x80 + cp % 64]
    else
      [0xF0 + cp / 262144, 0x80 + cp / 4096 % 64, 0x80 + cp / 64 % 64, 0x80 + cp % 64]
  }

  function Encode(s: string): (r: Bytes)
    ensures s == [] <==> r == []
    ensures |r| >= |s|
  {
    if s == [] then [] else EncodeChar(s[0]) + Encode(s[1..])
  }

  predicate InRange(b: Byte, lo: Byte, hi: Byte) {
    lo <= b <= hi
  }

  /**
   * The first character of `b` and the number of bytes it takes, or None
   * when `b` does not start with a well-formed sequence: a stray
   * continuation byte, C0, C1, F5..FF, an overlong form, an encoded
   * surrogate, a value above U+10FFFF or a truncated sequence.
   */
  function DecodeFirst(b: Bytes): (r: Option<(char, nat)>)
    requires |b| > 0
    ensures r.Some? ==> 1 <= r.value.1 <= |b|
  {
    var b0: int := b[0];
    if b0 < 0x80 then
      Some((b0 as char, 1))
    else if 0xC2 <= b0 <= 0xDF then
      if |b| >= 2 && InRange(b[1], 0x80, 0xBF) then
        Some((((b0 - 0xC0) * 64 + (b[1] as int - 0x80)) as char, 2))
      else None
    else if 0xE0 <= b0 <= 0xEF then
      if |b| >= 3 && InRange(b[1], if b0 == 0xE0 then 0xA0 else 0x80, if b0 == 0xED then 0x9F else 0xBF)
         && InRange(b[2], 0x80, 0xBF)
      then
        Some((((b0 - 0xE0) * 4096 + (b[1] as int - 0x80) * 64 + (b[2] as int - 0x80)) as char, 3))
      else None
    else if 0xF0 <= b0 <= 0xF4 then
      if |b| >= 4 && InRange(b[1], if b0 == 0xF0 then 0x90 else 0x80, if b0 == 0xF4 then 0x8F else 0xBF)
         && InRange(b[2], 0x80, 0xBF) && InRange(b[3], 0x80, 0xBF)
      then
        Some((((b0 - 0xF0) * 262144 + (b[1] as int - 0x80) * 4096
               + (b[2] as int - 0x80) * 64 + (b[3] as int - 0x80)) as char, 4))
      else None
    else
      None
  }

  /** Strict decoding: None wherever Python raises UnicodeDecodeError. */
  function Decode(b: Bytes): (r: Option<string>)
    ensures r.Some? ==> Encode(r.value) == b
    decreases |b|
  {
    if b == [] then Some([])
    else
      match DecodeFirst(b)
      case None => None
      case Some((c, n)) =>
        match Decode(b[n..])
        case None => None
        case Some(rest) =>
          EncodeCons(b, c, n, rest);
          Some([c] + rest)
  }

  /** Re-encoding the first character and the rest rebuilds the bytes. */
  lemma {:induction false} EncodeCons(b: Bytes, c: char, n: nat, rest: string)
    requires |b| > 0 && DecodeFirst(b) == Some((c, n)) && n <= |b| && Encode(rest) == b[n..]
    ensures Encode([c] + rest) == b
  {
    EncodeDecodeFirst(b);
    assert ([c] + rest)[1..] == rest;
    assert b == b[..n] + b[n..];
  }

  lemma {:induction false} DecodeFirstOfEncodeChar(c: char, rest: Bytes)
    ensures DecodeFirst(EncodeChar(c) + rest) == Some((c, |EncodeChar(c)|))
  {
    var cp := c as int;
    if cp < 0x80 {
    } else if cp < 0x800 {
      DecodeFirstTwo(c, rest);
    } else if cp < 0x10000 {
      DecodeFirstThree(c, rest);
    } else {
      DecodeFirstFour(c, rest);
    }
  }

  lemma {:induction false} DecodeFirstTwo(c: char, rest: Bytes)
    requires 0x80 <= c as int < 0x800
    ensures DecodeFirst(EncodeChar(c) + rest) == Some((c, 2))
  {
    var cp := c as int;
    var d0, d1 := cp / 64, cp % 64;
    assert cp == d0 * 64 + d1;
    var b := EncodeChar(c) + rest;
    assert b[0] == 0xC0 + d0 && b[1] == 0x80 + d1;
  }

  lemma {:induction false} DecodeFirstThree(c: char, rest: Bytes)
    requires 0x800 <= c as int < 0x10000
    ensures DecodeFirst(EncodeChar(c) + rest) == Some((c, 3))
  {
    var cp := c as int;
    var d0, d1, d2 := cp / 4096, cp / 64 % 64, cp % 64;
    assert cp == d0 * 4096 + d1 * 64 + d2;
    var b := EncodeChar(c) + rest;
    assert b[0] == 0xE0 + d0 && b[1] == 0x80 + d1 && b[2] == 0x80 + d2;
  }

  lemma {:induction false} DecodeFirstFour(c: char, rest: Bytes)
    requires 0x10000 <= c as int
    ensures DecodeFirst(EncodeChar(c) + rest) == Some((c, 4))
  {
    var cp := c as int;
    var d0, d1, d2, d3 := cp / 262144, cp / 4096 % 64, cp / 64 % 64, cp % 64;
    FourDigits(cp);
    var b := EncodeChar(c) + rest;
    assert b[0] == 0xF0 + d0 && b[1] == 0x80 + d1;
    assert b[2] == 0x80 + d2 && b[3] == 0x80 + d3;
  }

  /** The base-64 digits of a supplementary code point, with the bounds the lead bytes F0 and F4 impose. */
  lemma {:induction false} FourDigits(cp: int)
    requires 0x10000 <= cp < 0x110000
    ensures
      var d0, d1, d2, d3 := cp / 262144, cp / 4096 % 64, cp / 64 % 64, cp % 64;
      && cp == d0 * 262144 + d1 * 4096 + d2 * 64 + d3
      && 0 <= d0 <= 4
      && (d0 == 0 ==> d1 >= 16)
      && (d0 == 4 ==> d1 < 16)
  {
    var w, r1 := cp / 262144, cp % 262144;
    var x, r2 := r1 / 4096, r1 % 4096;
    var y, z := r2 / 64, r2 % 64;
    assert cp == w * 262144 + x * 4096 + y * 64 + z;
    assert w <= 4 && (w == 0 ==> x >= 16) && (w == 4 ==> x < 16);
    FourBytes(w, x, y, z);
  }

  /** A well-formed two-byte sequence holds a code point from U+0080 to U+07FF, whose digits are its payload bits. */
  lemma {:induction false} TwoBytes(x: int, y: int)
    requires 2 <= x < 32 && 0 <= y < 64
    ensures var cp := x * 64 + y; 0x80 <= cp < 0x800 && cp / 64 == x && cp % 64 == y
  {
  }

  /** A well-formed three-byte sequence holds a code point from U+0800 to U+FFFF. */
  lemma {:induction false} ThreeBytes(x: int, y: int, z: int)
    requires 0 <= x < 16 && 0 <= y < 64 && 0 <= z < 64 && (x == 0 ==> y >= 32)
    ensures
      var cp := x * 4096 + y * 64 + z;
      0x800 <= cp < 0x10000 && cp / 4096 == x && cp / 64 % 64 == y && cp % 64 == z
  {
    var cp := x * 4096 + y * 64 + z;
    assert cp / 64 == x * 64 + y;
  }

  /** A well-formed four-byte sequence holds a code point from U+10000 to U+10FFFF. */
  lemma {:induction false} FourBytes(w: int, x: int, y: int, z: int)
    requires 0 <= w <= 4 && 0 <= x < 64 && 0 <= y < 64 && 0 <= z < 64
    requires (w == 0 ==> x >= 16) && (w == 4 ==> x < 16)
    ensures
      var cp := w * 262144 + x * 4096 + y * 64 + z;
      && 0x10000 <= cp < 0x110000
      && cp / 262144 == w && cp / 4096 % 64 == x && cp / 64 % 64 == y && cp % 64 == z
  {
    var cp := w * 262144 + x * 4096 + y * 64 + z;
    assert cp / 64 == w * 4096 + x * 64 + y;
    assert cp / 4096 == w * 64 + x;
  }

  /** The bytes `DecodeFirst` reads are the encoding of the character it returns. */
  lemma {:induction false} EncodeDecodeFirst(b: Bytes)
    requires |b| > 0 && DecodeFirst(b).Some?
    ensures EncodeChar(DecodeFirst(b).value.0) == b[..DecodeFirst(b).value.1]
  {
    var b0: int := b[0];
    if b0 < 0x80 {
      assert EncodeChar(b0 as char) == [b0];
    } else if b0 <= 0xDF {
      EncodeDecodeTwo(b);
    } else if b0 <= 0xEF {
      EncodeDecodeThree(b);
    } else {
      EncodeDecodeFour(b);
    }
  }

  lemma {:induction false} EncodeDecodeTwo(b: Bytes)
    requires |b| > 0 && DecodeFirst(b).Some? && 0x80 <= b[0] <= 0xDF
    ensures EncodeChar(DecodeFirst(b).value.0) == b[..2]
  {
    var c := DecodeFirst(b).value.0;
    var x, y := b[0] as int - 0xC0, b[1] as int - 0x80;
    assert c as int == x * 64 + y;
    TwoBytes(x, y);
    assert EncodeChar(c) == [0xC0 + x, 0x80 + y];
  }

  lemma {:induction false} EncodeDecodeThree(b: Bytes)
    requires |b| > 0 && DecodeFirst(b).Some? && 0xE0 <= b[0] <= 0xEF
    ensures EncodeChar(DecodeFirst(b).value.0) == b[..3]
  {
    var c := DecodeFirst(b).value.0;
    var x, y, z := b[0] as int - 0xE0, b[1] as int - 0x80, b[2] as int - 0x80;
    assert c as int == x * 4096 + y * 64 + z;
    ThreeBytes(x, y, z);
    assert EncodeChar(c) == [0xE0 + x, 0x80 + y, 0x80 + z];
  }

  lemma {:induction false} EncodeDecodeFour(b: Bytes)
    requires |b| > 0 && DecodeFirst(b).Some? && 0xF0 <= b[0]
    ensures EncodeChar(DecodeFirst(b).value.0) == b[..4]
  {
    var c := DecodeFirst(b).value.0;
    var w, x, y, z := b[0] as int - 0xF0, b[1] as int - 0x80, b[2] as int - 0x80, b[3] as int - 0x80;
    assert c as int == w * 262144 + x * 4096 + y * 64 + z;
    FourBytes(w, x, y, z);
    assert EncodeChar(c) == [0xF0 + w, 0x80 + x, 0x80 + y, 0x80 + z];
  }

  /** Decoding what Python encoded gives the string back. */
  lemma {:induction false} DecodeEncode(s: string)
    ensures Decode(Encode(s)) == Some(s)
  {
    if s != [] {
      var e := EncodeChar(s[0]);
      DecodeFirstOfEncodeChar(s[0], Encode(s[1..]));
      assert (e + Encode(s[1..]))[|e|..] == Encode(s[1..]);
      DecodeEncode(s[1..]);
      assert [s[0]] + s[1..] == s;
    }
  }
}
