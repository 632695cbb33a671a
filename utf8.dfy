/**
 * UTF-8 as Rust's `str` uses it: `str::len` counts the bytes of the encoding, and
 * `std::str::from_utf8` accepts exactly the well-formed byte sequences of
 * Table 3-7 in section 3.9 of the Unicode Standard (no overlong forms, no
 * surrogates, nothing above U+10FFFF). A Dafny `char` is a Unicode scalar value.
 */
module Utf8 {
  import opened Wrappers

  type Byte = b: int | 0 <= b < 0x100

  type Bytes = seq<Byte>

  predicate IsContinuation(b: Byte) {
    0x80 <= b < 0xC0
  }

  predicate IsAscii(s: string) {
    forall i :: 0 <= i < |s| ==> s[i] as int < 0x80
  }

  /** The shortest encoding of one scalar value (Table 3-6 of the Unicode Standard). */
  function EncodeChar(c: char): (r: Bytes)
    ensures 1 <= |r| <= 4
    ensures |r| == 1 <==> c as int < 0x80
  {
    var v := c as int;
    if v < 0x80 then [v]
    else if v < 0x800 then [0xC0 + v / 0x40, 0x80 + v % 0x40]
    else if v < 0x10000 then [0xE0 + v / 0x1000, 0x80 + v / 0x40 % 0x40, 0x80 + v % 0x40]
    else [0xF0 + v / 0x40000, 0x80 + v / 0x1000 % 0x40, 0x80 + v / 0x40 % 0x40, 0x80 + v % 0x40]
  }

  /** `str::len`: the byte length of `s`, counted character by character. */
  function ByteLength(s: string): (r: nat)
    ensures |s| <= r <= 4 * |s|
  {
    PrefixByteLength(s, |s|)
  }

  function PrefixByteLength(s: string, n: nat): (r: nat)
    requires n <= |s|
    ensures n <= r <= 4 * n
  {
    if n == 0 then 0 else PrefixByteLength(s, n - 1) + |EncodeChar(s[n - 1])|
  }

  /** The bytes of a Rust `String` holding `s`. */
  function Encode(s: string): (r: Bytes)
  {
    if s == [] then [] else EncodeChar(s[0]) + Encode(s[1..])
  }

  /**
   * The scalar value at the front of `b` and the number of bytes it takes, or None
   * when `b` does not start with a well-formed sequence (Table 3-7 of the Unicode
   * Standard: no overlong forms, no surrogates, nothing above U+10FFFF).
   */
  function DecodeFirst(b: Bytes): (r: Option<(char, nat)>)
    requires |b| > 0
    ensures r.Some? ==> 1 <= r.value.1 <= |b| && b[..r.value.1] == EncodeChar(r.value.0)
  {
    var b0: int := b[0];
    if b0 < 0x80 then Some((b0 as char, 1))
    else if 0xC2 <= b0 <= 0xDF then DecodeTwoBytes(b)
    else if 0xE0 <= b0 <= 0xEF then DecodeThreeBytes(b)
    else if 0xF0 <= b0 <= 0xF4 then DecodeFourBytes(b)
    else None
  }

  function DecodeTwoBytes(b: Bytes): (r: Option<(char, nat)>)
    requires |b| > 0 && 0xC2 <= b[0] <= 0xDF
    ensures r.Some? ==> r.value.1 == 2 <= |b| && b[..2] == EncodeChar(r.value.0)
  {
    if |b| >= 2 && IsContinuation(b[1]) then
      var v := (b[0] as int - 0xC0) * 0x40 + (b[1] as int - 0x80);
      assert b[..2] == EncodeChar(v as char) by { Split2(b[0] as int - 0xC0, b[1] as int - 0x80); }
      Some((v as char, 2))
    else None
  }

  function DecodeThreeBytes(b: Bytes): (r: Option<(char, nat)>)
    requires |b| > 0 && 0xE0 <= b[0] <= 0xEF
    ensures r.Some? ==> r.value.1 == 3 <= |b| && b[..3] == EncodeChar(r.value.0)
  {
    var lo := if b[0] == 0xE0 then 0xA0 else 0x80;
    var hi := if b[0] == 0xED then 0x9F else 0xBF;
    if |b| >= 3 && lo <= b[1] <= hi && IsContinuation(b[2]) then
      var v := (b[0] as int - 0xE0) * 0x1000 + (b[1] as int - 0x80) * 0x40 + (b[2] as int - 0x80);
      assert b[..3] == EncodeChar(v as char) by {
        Split3(b[0] as int - 0xE0, b[1] as int - 0x80, b[2] as int - 0x80);
      }
      Some((v as char, 3))
    else None
  }

  function DecodeFourBytes(b: Bytes): (r: Option<(char, nat)>)
    requires |b| > 0 && 0xF0 <= b[0] <= 0xF4
    ensures r.Some? ==> r.value.1 == 4 <= |b| && b[..4] == EncodeChar(r.value.0)
  {
    var lo := if b[0] == 0xF0 then 0x90 else 0x80;
    var hi := if b[0] == 0xF4 then 0x8F else 0xBF;
    if |b| >= 4 && lo <= b[1] <= hi && IsContinuation(b[2]) && IsContinuation(b[3]) then
      var v := (b[0] as int - 0xF0) * 0x40000 + (b[1] as int - 0x80) * 0x1000 +
        (b[2] as int - 0x80) * 0x40 + (b[3] as int - 0x80);
      assert b[..4] == EncodeChar(v as char) by {
        Split4(b[0] as int - 0xF0, b[1] as int - 0x80, b[2] as int - 0x80, b[3] as int - 0x80);
      }
      Some((v as char, 4))
    else None
  }

  /** `std::str::from_utf8`: the text `b` encodes, or None when `b` is not well-formed UTF-8. */
  function Decode(b: Bytes): (r: Option<string>)
    ensures r.Some? ==> |r.value| <= |b| <= 4 * |r.value|
    decreases |b|
  {
    if b == [] then Some([])
    else match DecodeFirst(b)
      case None => None
      case Some((c, n)) =>
        match Decode(b[n..])
        case None => None
        case Some(rest) => Some([c] + rest)
  }

  /** The decoder reads back exactly the scalar value the encoder wrote, and no more. */
  lemma DecodeFirstEncodeChar(c: char, rest: Bytes)
    ensures DecodeFirst(EncodeChar(c) + rest) == Some((c, |EncodeChar(c)|))
  {
    var v := c as int;
    if v < 0x80 {
    } else if v < 0x800 {
      DecodeTwo(c, rest);
    } else if v < 0x10000 {
      DecodeThree(c, rest);
    } else {
      DecodeFour(c, rest);
    }
  }

  lemma DecodeTwo(c: char, rest: Bytes)
    requires 0x80 <= c as int < 0x800
    ensures DecodeFirst(EncodeChar(c) + rest) == Some((c, 2))
  {
    var v := c as int;
    var b := EncodeChar(c) + rest;
    var x, y := v / 0x40, v % 0x40;
    assert v == x * 0x40 + y;
    assert b[0] == 0xC0 + x && b[1] == 0x80 + y;
  }

  lemma DecodeThree(c: char, rest: Bytes)
    requires 0x800 <= c as int < 0x10000
    ensures DecodeFirst(EncodeChar(c) + rest) == Some((c, 3))
  {
    var v := c as int;
    var b := EncodeChar(c) + rest;
    var x, y, z := v / 0x1000, v / 0x40 % 0x40, v % 0x40;
    assert v / 0x40 == x * 0x40 + y;
    assert v == x * 0x1000 + y * 0x40 + z;
    assert b[0] == 0xE0 + x && b[1] == 0x80 + y && b[2] == 0x80 + z;
  }

  lemma DecodeFour(c: char, rest: Bytes)
    requires 0x10000 <= c as int
    ensures DecodeFirst(EncodeChar(c) + rest) == Some((c, 4))
  {
    var v := c as int;
    var b := EncodeChar(c) + rest;
    var w, x, y, z := v / 0x40000, v / 0x1000 % 0x40, v / 0x40 % 0x40, v % 0x40;
    FourDigits(v);
    assert b[..4] == [0xF0 + w, 0x80 + x, 0x80 + y, 0x80 + z];
    assert (b[0] as int - 0xF0) * 0x40000 + (b[1] as int - 0x80) * 0x1000 +
      (b[2] as int - 0x80) * 0x40 + (b[3] as int - 0x80) == v;
    assert DecodeFourBytes(b) == Some((c, 4));
  }

  /** The four base-64 digits of a supplementary-plane scalar value, as the encoder takes them. */
  lemma FourDigits(v: int)
    requires 0x10000 <= v < 0x110000
    ensures var w, x, y, z := v / 0x40000, v / 0x1000 % 0x40, v / 0x40 % 0x40, v % 0x40;
      && v == w * 0x40000 + x * 0x1000 + y * 0x40 + z
      && (1 <= w <= 3 || (w == 0 && x >= 0x10) || (w == 4 && x < 0x10))
  {
    var w, x, y, z := v / 0x40000, v / 0x1000 % 0x40, v / 0x40 % 0x40, v % 0x40;
    var hi := v / 0x1000;
    assert hi == w * 0x40 + x;
    assert v / 0x40 == hi * 0x40 + y;
    assert v == hi * 0x1000 + y * 0x40 + z;
  }

  /** Decoding what the encoder produced gives back the text (`from_utf8` accepts every `String`). */
  lemma {:induction false} DecodeEncode(s: string)
    ensures Decode(Encode(s)) == Some(s)
  {
    if s != [] {
      var b := Encode(s);
      var n := |EncodeChar(s[0])|;
      DecodeFirstEncodeChar(s[0], Encode(s[1..]));
      assert b[n..] == Encode(s[1..]);
      DecodeEncode(s[1..]);
      assert [s[0]] + s[1..] == s;
    }
  }

  /** An accepted input is its first scalar value followed by an accepted rest. */
  lemma DecodeStep(b: Bytes)
    requires b != [] && Decode(b).Some?
    ensures DecodeFirst(b).Some?
    ensures var n := DecodeFirst(b).value.1;
      Decode(b[n..]).Some? && Decode(b).value == [DecodeFirst(b).value.0] + Decode(b[n..]).value
  {
  }

  /** Whatever `from_utf8` accepts is the encoding of the text it returns: decoding loses nothing. */
  lemma {:induction false} EncodeDecode(b: Bytes)
    requires Decode(b).Some?
    ensures Encode(Decode(b).value) == b
    decreases |b|
  {
    if b != [] {
      DecodeStep(b);
      var c, n := DecodeFirst(b).value.0, DecodeFirst(b).value.1;
      var rest := Decode(b[n..]).value;
      var s := Decode(b).value;
      EncodeDecode(b[n..]);
      assert s[0] == c && s[1..] == rest;
      assert Encode(s) == EncodeChar(c) + Encode(rest);
      assert b == b[..n] + b[n..];
    }
  }

  lemma {:induction false} EncodeAppend(a: string, b: string)
    ensures Encode(a + b) == Encode(a) + Encode(b)
  {
    if a == [] {
      assert a + b == b;
    } else {
      assert (a + b)[0] == a[0] && (a + b)[1..] == a[1..] + b;
      EncodeAppend(a[1..], b);
      calc {
        Encode(a + b);
        EncodeChar(a[0]) + Encode(a[1..] + b);
        EncodeChar(a[0]) + (Encode(a[1..]) + Encode(b));
        (EncodeChar(a[0]) + Encode(a[1..])) + Encode(b);
      }
    }
  }

  /** `str::len` is the length of the encoding. */
  lemma {:induction false} ByteLengthOfEncoding(s: string)
    ensures ByteLength(s) == |Encode(s)|
  {
    PrefixByteLengthOfEncoding(s, |s|);
    assert s[..|s|] == s;
  }

  lemma {:induction false} PrefixByteLengthOfEncoding(s: string, n: nat)
    requires n <= |s|
    ensures PrefixByteLength(s, n) == |Encode(s[..n])|
  {
    if n > 0 {
      var front, last := s[..n - 1], s[n - 1];
      PrefixByteLengthOfEncoding(s, n - 1);
      assert s[..n] == front + [last];
      EncodeAppend(front, [last]);
      assert Encode([last]) == EncodeChar(last) + Encode([]);
      assert |Encode(s[..n])| == |Encode(front)| + |EncodeChar(last)|;
    }
  }

  /** An ASCII string takes one byte per character: its byte length is its character count. */
  lemma {:induction false} AsciiByteLength(s: string, n: nat)
    requires IsAscii(s) && n <= |s|
    ensures PrefixByteLength(s, n) == n
  {
    if n > 0 {
      AsciiByteLength(s, n - 1);
    }
  }

  lemma Split2(hi: int, lo: int)
    requires 0 <= lo < 0x40
    ensures (hi * 0x40 + lo) / 0x40 == hi && (hi * 0x40 + lo) % 0x40 == lo
  {
  }

  lemma Split3(x: int, y: int, z: int)
    requires 0 <= y < 0x40 && 0 <= z < 0x40
    ensures var v := x * 0x1000 + y * 0x40 + z;
      v / 0x1000 == x && v / 0x40 % 0x40 == y && v % 0x40 == z
  {
    var v := x * 0x1000 + y * 0x40 + z;
    Split2(x * 0x40 + y, z);
    Split2(x, y);
    assert v / 0x40 == x * 0x40 + y;
    assert v / 0x1000 == v / 0x40 / 0x40;
  }

  lemma Split4(w: int, x: int, y: int, z: int)
    requires 0 <= x < 0x40 && 0 <= y < 0x40 && 0 <= z < 0x40
    ensures var v := w * 0x40000 + x * 0x1000 + y * 0x40 + z;
      v / 0x40000 == w && v / 0x1000 % 0x40 == x && v / 0x40 % 0x40 == y && v % 0x40 == z
  {
    var v := w * 0x40000 + x * 0x1000 + y * 0x40 + z;
    Split3(w * 0x40 + x, y, z);
    Split2(w, x);
    assert v / 0x40000 == v / 0x1000 / 0x40;
  }
}
