/**
 * UTF-8, as Rust's `str::as_bytes` (encoding) and `String::from_utf8` (validating decoding).
 * A Dafny `char` is a Unicode scalar value, exactly like a Rust `char`.
 */
module Utf8 {
  import opened Prelude

  /** A continuation byte, 10xxxxxx. */
  predicate IsCont(b: byte)
  {
    0x80 <= b < 0xC0
  }

  /** The shortest UTF-8 form of one scalar value. */
  function EncodeChar(c: char): (r: Bytes)
    ensures 1 <= |r| <= 4
    ensures (r[0] < 0x80) == (|r| == 1)
  {
    var n := c as int;
    if n < 0x80 then
      [n as byte]
    else if n < 0x800 then
      [(0xC0 + n / 64) as byte, (0x80 + n % 64) as byte]
    else if n < 0x1_0000 then
      [(0xE0 + n / 4096) as byte, (0x80 + (n / 64) % 64) as byte, (0x80 + n % 64) as byte]
    else
      [(0xF0 + n / 262144) as byte, (0x80 + (n / 4096) % 64) as byte,
       (0x80 + (n / 64) % 64) as byte, (0x80 + n % 64) as byte]
  }

  /** `s.as_bytes()`. */
  function Encode(s: string): Bytes
  {
    if s == [] then [] else EncodeChar(s[0]) + Encode(s[1..])
  }

  /**
   * Decodes the scalar value at the front of `b`, giving the character and the number of
   * bytes it occupies; None when the front of `b` is not a well-formed UTF-8 sequence
   * (stray continuation byte, overlong form, surrogate, value above U+10FFFF, truncation).
   */
  function DecodeFirst(b: Bytes): (r: Option<(char, nat)>)
    requires |b| > 0
    ensures r.Some? ==> 1 <= r.value.1 <= |b| && r.value.1 <= 4
  {
    var b0 := b[0] as int;
    if b0 < 0x80 then
      Some((b0 as char, 1))
    else if 0xC2 <= b0 < 0xE0 then
      if |b| >= 2 && IsCont(b[1]) then
        Some((((b0 - 0xC0) * 64 + (b[1] as int - 0x80)) as char, 2))
      else None
    else if 0xE0 <= b0 < 0xF0 then
      if |b| >= 3 && IsCont(b[1]) && IsCont(b[2]) then
        var n := (b0 - 0xE0) * 4096 + (b[1] as int - 0x80) * 64 + (b[2] as int - 0x80);
        if 0x800 <= n && !(0xD800 <= n < 0xE000) then Some((n as char, 3)) else None
      else None
    else if 0xF0 <= b0 < 0xF5 then
      if |b| >= 4 && IsCont(b[1]) && IsCont(b[2]) && IsCont(b[3]) then
        var n := (b0 - 0xF0) * 262144 + (b[1] as int - 0x80) * 4096
                 + (b[2] as int - 0x80) * 64 + (b[3] as int - 0x80);
        if 0x1_0000 <= n < 0x11_0000 then Some((n as char, 4)) else None
      else None
    else
      None
  }

  /** `String::from_utf8(b)`: None exactly when `b` is not valid UTF-8. */
  function Decode(b: Bytes): Option<string>
    decreases |b|
  {
    if b == [] then Some([])
    else
      match DecodeFirst(b)
      case None => None
      case Some((c, k)) =>
        match Decode(b[k..])
        case None => None
        case Some(s) => Some([c] + s)
  }

  lemma DecodeFirstOfEncodeChar(c: char, rest: Bytes)
    ensures DecodeFirst(EncodeChar(c) + rest) == Some((c, |EncodeChar(c)|))
  {
    var n := c as int;
    if n < 0x80 {
    } else if n < 0x800 {
      DecodeFirstOfTwo(c, rest);
    } else if n < 0x1_0000 {
      DecodeFirstOfThree(c, rest);
    } else {
      DecodeFirstOfFour(c, rest);
    }
  }

  lemma DecodeFirstOfTwo(c: char, rest: Bytes)
    requires 0x80 <= c as int < 0x800
    ensures DecodeFirst(EncodeChar(c) + rest) == Some((c, 2))
  {
    var n := c as int;
    var b := EncodeChar(c) + rest;
    assert b[0] as int == 0xC0 + n / 64 && b[1] as int == 0x80 + n % 64;
    assert (n / 64) * 64 + n % 64 == n;
  }

  lemma DecodeFirstOfThree(c: char, rest: Bytes)
    requires 0x800 <= c as int < 0x1_0000
    ensures DecodeFirst(EncodeChar(c) + rest) == Some((c, 3))
  {
    var n := c as int;
    var b := EncodeChar(c) + rest;
    assert b[0] as int == 0xE0 + n / 4096;
    assert b[1] as int == 0x80 + (n / 64) % 64;
    assert b[2] as int == 0x80 + n % 64;
    ThreeDigits(n);
  }

  lemma DecodeFirstOfFour(c: char, rest: Bytes)
    requires 0x1_0000 <= c as int
    ensures DecodeFirst(EncodeChar(c) + rest) == Some((c, 4))
  {
    var n := c as int;
    var b := EncodeChar(c) + rest;
    assert b[0] as int == 0xF0 + n / 262144;
    assert b[1] as int == 0x80 + (n / 4096) % 64;
    assert b[2] as int == 0x80 + (n / 64) % 64;
    assert b[3] as int == 0x80 + n % 64;
    FourDigits(n);
  }

  /** A value below 2^16 read back from its three base-64 digits. */
  lemma ThreeDigits(n: nat)
    ensures (n / 4096) * 4096 + ((n / 64) % 64) * 64 + n % 64 == n
  {
    assert (n / 64) / 64 == n / 4096;
  }

  /** A value read back from its four base-64 digits. */
  lemma FourDigits(n: nat)
    ensures (n / 262144) * 262144 + ((n / 4096) % 64) * 4096 + ((n / 64) % 64) * 64 + n % 64 == n
  {
    assert (n / 64) / 64 == n / 4096;
    assert (n / 4096) / 64 == n / 262144;
  }

  /** Decoding what was encoded gives the original string back. */
  lemma {:induction false} DecodeEncode(s: string)
    ensures Decode(Encode(s)) == Some(s)
  {
    if s != [] {
      var e := EncodeChar(s[0]);
      var tail := Encode(s[1..]);
      assert Encode(s) == e + tail;
      DecodeFirstOfEncodeChar(s[0], tail);
      assert (e + tail)[|e|..] == tail;
      DecodeEncode(s[1..]);
      assert [s[0]] + s[1..] == s;
    }
  }

  /** The bytes decoded as one character are exactly that character's encoding. */
  lemma EncodeCharOfDecodeFirst(b: Bytes)
    requires |b| > 0 && DecodeFirst(b).Some?
    ensures EncodeChar(DecodeFirst(b).value.0) == b[..DecodeFirst(b).value.1]
  {
    var b0 := b[0] as int;
    if b0 < 0x80 {
    } else if b0 < 0xE0 {
      EncodeCharOfTwo(b);
    } else if b0 < 0xF0 {
      EncodeCharOfThree(b);
    } else {
      EncodeCharOfFour(b);
    }
  }

  lemma EncodeCharOfTwo(b: Bytes)
    requires |b| > 0 && 0x80 <= b[0] < 0xE0 && DecodeFirst(b).Some?
    ensures EncodeChar(DecodeFirst(b).value.0) == b[..2]
  {
    var c := DecodeFirst(b).value.0;
    var n := c as int;
    var x1 := b[1] as int - 0x80;
    assert n == (b[0] as int - 0xC0) * 64 + x1;
    assert n / 64 == b[0] as int - 0xC0 && n % 64 == x1;
    assert EncodeChar(c) == [b[0], b[1]];
  }

  lemma EncodeCharOfThree(b: Bytes)
    requires |b| > 0 && 0xE0 <= b[0] < 0xF0 && DecodeFirst(b).Some?
    ensures EncodeChar(DecodeFirst(b).value.0) == b[..3]
  {
    var b0 := b[0] as int;
    var c := DecodeFirst(b).value.0;
    var n := c as int;
    var x1, x2 := b[1] as int - 0x80, b[2] as int - 0x80;
    assert n == (b0 - 0xE0) * 4096 + x1 * 64 + x2;
    assert n / 64 == (b0 - 0xE0) * 64 + x1 && n % 64 == x2;
    assert n / 4096 == b0 - 0xE0 && (n / 64) % 64 == x1;
    assert EncodeChar(c) == [b[0], b[1], b[2]];
  }

  lemma EncodeCharOfFour(b: Bytes)
    requires |b| > 0 && 0xF0 <= b[0] && DecodeFirst(b).Some?
    ensures EncodeChar(DecodeFirst(b).value.0) == b[..4]
  {
    var b0 := b[0] as int;
    var c := DecodeFirst(b).value.0;
    var n := c as int;
    var x1, x2, x3 := b[1] as int - 0x80, b[2] as int - 0x80, b[3] as int - 0x80;
    assert n == (b0 - 0xF0) * 262144 + x1 * 4096 + x2 * 64 + x3;
    assert n / 64 == (b0 - 0xF0) * 4096 + x1 * 64 + x2 && n % 64 == x3;
    assert n / 4096 == (b0 - 0xF0) * 64 + x1 && (n / 64) % 64 == x2;
    assert n / 262144 == b0 - 0xF0 && (n / 4096) % 64 == x1;
    assert EncodeChar(c) == [b[0], b[1], b[2], b[3]];
  }

  /** One step of `Decode` on a non-empty input that decodes. */
  lemma DecodeStep(b: Bytes)
    requires b != [] && Decode(b).Some?
    ensures DecodeFirst(b).Some?
    ensures Decode(b[DecodeFirst(b).value.1..]).Some?
    ensures Decode(b).value == [DecodeFirst(b).value.0] + Decode(b[DecodeFirst(b).value.1..]).value
  {
  }

  /** Decoding accepts only canonical UTF-8: whatever decodes re-encodes to the same bytes. */
  lemma {:induction false} EncodeDecode(b: Bytes)
    requires Decode(b).Some?
    ensures Encode(Decode(b).value) == b
    decreases |b|
  {
    if b != [] {
      DecodeStep(b);
      var c := DecodeFirst(b).value.0;
      var k := DecodeFirst(b).value.1;
      EncodeDecode(b[k..]);
      EncodeCharOfDecodeFirst(b);
      EncodeCons(b, c, k, Decode(b[k..]).value);
    }
  }

  /** A character's bytes followed by the bytes of the rest are the encoding of the whole. */
  lemma EncodeCons(b: Bytes, c: char, k: nat, s: string)
    requires k <= |b| && EncodeChar(c) == b[..k] && Encode(s) == b[k..]
    ensures Encode([c] + s) == b
  {
    var cs := [c] + s;
    assert cs[0] == c && cs[1..] == s;
    assert Encode(cs) == EncodeChar(c) + Encode(s);
    assert b == b[..k] + b[k..];
  }

  /** Different strings have different encodings. */
  lemma EncodeInjective(s: string, t: string)
    requires Encode(s) == Encode(t)
    ensures s == t
  {
    DecodeEncode(s);
    DecodeEncode(t);
  }

  /** Encoding distributes over concatenation. */
  lemma {:induction false} EncodeAppend(s: string, t: string)
    ensures Encode(s + t) == Encode(s) + Encode(t)
  {
    if s != [] {
      assert (s + t)[0] == s[0] && (s + t)[1..] == s[1..] + t;
      EncodeAppend(s[1..], t);
    } else {
      assert s + t == t;
    }
  }
}
