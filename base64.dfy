/**
 * Base64 with the standard alphabet, in the two configurations the program uses:
 * `STANDARD` (writes `=` padding, requires canonical padding when decoding) and
 * `STANDARD_NO_PAD` (writes no padding, rejects padding when decoding). Both decoders
 * reject non-zero trailing bits, so each accepts exactly one spelling of every byte string.
 */
module Base64 {
  import opened Prelude

  /** The digit for a 6-bit value: A-Z, a-z, 0-9, '+', '/'. */
  function CharOf(v: nat): char
    requires v < 64
  {
    if v < 26 then ('A' as int + v) as char
    else if v < 52 then ('a' as int + (v - 26)) as char
    else if v < 62 then ('0' as int + (v - 52)) as char
    else if v == 62 then '+'
    else '/'
  }

  /** The 6-bit value of a digit; None for any character outside the alphabet (`=` included). */
  function ValueOf(c: char): (r: Option<nat>)
    ensures r.Some? ==> r.value < 64
  {
    if 'A' <= c <= 'Z' then Some(c as int - 'A' as int)
    else if 'a' <= c <= 'z' then Some(c as int - 'a' as int + 26)
    else if '0' <= c <= '9' then Some(c as int - '0' as int + 52)
    else if c == '+' then Some(62)
    else if c == '/' then Some(63)
    else None
  }

  lemma ValueOfCharOf(v: nat)
    requires v < 64
    ensures ValueOf(CharOf(v)) == Some(v)
  {
  }

  lemma CharOfValueOf(c: char)
    requires ValueOf(c).Some?
    ensures CharOf(ValueOf(c).value) == c
  {
  }

  /** Three bytes as four digits. */
  function EncodeGroup(b0: byte, b1: byte, b2: byte): string
  {
    [CharOf(b0 as nat / 4), CharOf((b0 as nat % 4) * 16 + b1 as nat / 16),
     CharOf((b1 as nat % 16) * 4 + b2 as nat / 64), CharOf(b2 as nat % 64)]
  }

  /** Encoding without padding (`STANDARD_NO_PAD.encode`). */
  function EncodeNoPad(b: Bytes): string
  {
    if |b| == 0 then []
    else if |b| == 1 then
      [CharOf(b[0] as nat / 4), CharOf((b[0] as nat % 4) * 16)]
    else if |b| == 2 then
      [CharOf(b[0] as nat / 4), CharOf((b[0] as nat % 4) * 16 + b[1] as nat / 16),
       CharOf((b[1] as nat % 16) * 4)]
    else
      EncodeGroup(b[0], b[1], b[2]) + EncodeNoPad(b[3..])
  }

  /** The `=` characters that complete the last group of an encoding of `n` bytes. */
  function Padding(n: nat): string
  {
    if n % 3 == 1 then "==" else if n % 3 == 2 then "=" else ""
  }

  /** Encoding with padding (`STANDARD.encode`). */
  function EncodePadded(b: Bytes): string
  {
    EncodeNoPad(b) + Padding(|b|)
  }

  /** Four digits as three bytes. */
  function DecodeGroup(s: string): Option<Bytes>
    requires |s| == 4
  {
    match (ValueOf(s[0]), ValueOf(s[1]), ValueOf(s[2]), ValueOf(s[3]))
    case (Some(v0), Some(v1), Some(v2), Some(v3)) =>
      Some([(v0 * 4 + v1 / 16) as byte, ((v1 % 16) * 16 + v2 / 4) as byte, ((v2 % 4) * 64 + v3) as byte])
    case _ => None
  }

  /** Decoding that rejects padding (`STANDARD_NO_PAD.decode`). */
  function DecodeNoPad(s: string): Option<Bytes>
    decreases |s|
  {
    if |s| == 0 then Some([])
    else if |s| == 1 then None
    else if |s| == 2 then
      match (ValueOf(s[0]), ValueOf(s[1]))
      case (Some(v0), Some(v1)) =>
        if v1 % 16 == 0 then Some([(v0 * 4 + v1 / 16) as byte]) else None
      case _ => None
    else if |s| == 3 then
      match (ValueOf(s[0]), ValueOf(s[1]), ValueOf(s[2]))
      case (Some(v0), Some(v1), Some(v2)) =>
        if v2 % 4 == 0 then Some([(v0 * 4 + v1 / 16) as byte, ((v1 % 16) * 16 + v2 / 4) as byte]) else None
      case _ => None
    else
      match (DecodeGroup(s[..4]), DecodeNoPad(s[4..]))
      case (Some(g), Some(rest)) => Some(g + rest)
      case _ => None
  }

  /** Decoding that requires canonical padding (`STANDARD.decode`). */
  function DecodePadded(s: string): Option<Bytes>
  {
    if |s| % 4 != 0 then None
    else if |s| >= 2 && s[|s| - 2..] == "==" then DecodeNoPad(s[..|s| - 2])
    else if |s| >= 1 && s[|s| - 1] == '=' then DecodeNoPad(s[..|s| - 1])
    else DecodeNoPad(s)
  }

  /** Every character of `s` is a base64 digit (so never `=`, `$` or a quote). */
  predicate AllDigits(s: string)
  {
    forall i :: 0 <= i < |s| ==> ValueOf(s[i]).Some?
  }

  /** Shape of an unpadded encoding: its length, and only digits in it. */
  lemma {:induction false} EncodeNoPadShape(b: Bytes)
    ensures |EncodeNoPad(b)| == 4 * (|b| / 3) + (if |b| % 3 == 0 then 0 else |b| % 3 + 1)
    ensures AllDigits(EncodeNoPad(b))
  {
    if |b| >= 3 {
      EncodeNoPadShape(b[3..]);
      var g := EncodeGroup(b[0], b[1], b[2]);
      var t := EncodeNoPad(b[3..]);
      forall i | 0 <= i < |g + t| ensures ValueOf((g + t)[i]).Some? {
        if i < 4 {
        } else {
          assert (g + t)[i] == t[i - 4];
        }
      }
    }
  }

  /** The digit values of a group, read back, give its bytes. */
  lemma GroupArithmetic(x0: nat, x1: nat, x2: nat)
    requires x0 < 256 && x1 < 256 && x2 < 256
    ensures var v1, v2 := (x0 % 4) * 16 + x1 / 16, (x1 % 16) * 4 + x2 / 64;
            && (x0 / 4) * 4 + v1 / 16 == x0
            && (v1 % 16) * 16 + v2 / 4 == x1
            && (v2 % 4) * 64 + x2 % 64 == x2
  {
    var v1, v2 := (x0 % 4) * 16 + x1 / 16, (x1 % 16) * 4 + x2 / 64;
    assert v1 / 16 == x0 % 4 && v1 % 16 == x1 / 16;
    assert v2 / 4 == x1 % 16 && v2 % 4 == x2 / 64;
  }

  lemma DecodeEncodeGroup(b0: byte, b1: byte, b2: byte)
    ensures DecodeGroup(EncodeGroup(b0, b1, b2)) == Some([b0, b1, b2])
  {
    var s := EncodeGroup(b0, b1, b2);
    var v1 := (b0 as nat % 4) * 16 + b1 as nat / 16;
    var v2 := (b1 as nat % 16) * 4 + b2 as nat / 64;
    ValueOfCharOf(b0 as nat / 4);
    ValueOfCharOf(v1);
    ValueOfCharOf(v2);
    ValueOfCharOf(b2 as nat % 64);
    GroupArithmetic(b0 as nat, b1 as nat, b2 as nat);
  }

  lemma DecodeEncodeOne(b0: byte)
    ensures DecodeNoPad(EncodeNoPad([b0])) == Some([b0])
  {
    ValueOfCharOf(b0 as nat / 4);
    ValueOfCharOf((b0 as nat % 4) * 16);
    GroupArithmetic(b0 as nat, 0, 0);
  }

  lemma DecodeEncodeTwo(b0: byte, b1: byte)
    ensures DecodeNoPad(EncodeNoPad([b0, b1])) == Some([b0, b1])
  {
    ValueOfCharOf(b0 as nat / 4);
    ValueOfCharOf((b0 as nat % 4) * 16 + b1 as nat / 16);
    ValueOfCharOf((b1 as nat % 16) * 4);
    GroupArithmetic(b0 as nat, b1 as nat, 0);
  }

  /** A decodable group followed by decodable text decodes to the concatenation. */
  lemma DecodeNoPadConcat(g: string, t: string, x: Bytes, y: Bytes)
    requires |g| == 4 && DecodeGroup(g) == Some(x) && DecodeNoPad(t) == Some(y)
    ensures DecodeNoPad(g + t) == Some(x + y)
  {
    assert (g + t)[..4] == g && (g + t)[4..] == t;
  }

  /** Unpadded decoding inverts unpadded encoding. */
  lemma {:induction false} DecodeEncodeNoPad(b: Bytes)
    ensures DecodeNoPad(EncodeNoPad(b)) == Some(b)
  {
    if |b| == 1 {
      assert b == [b[0]];
      DecodeEncodeOne(b[0]);
    } else if |b| == 2 {
      assert b == [b[0], b[1]];
      DecodeEncodeTwo(b[0], b[1]);
    } else if |b| >= 3 {
      DecodeEncodeNoPad(b[3..]);
      DecodeEncodeStep(b);
    }
  }

  /** The inductive step: a leading group round-trips, and so does the rest. */
  lemma DecodeEncodeStep(b: Bytes)
    requires |b| >= 3 && DecodeNoPad(EncodeNoPad(b[3..])) == Some(b[3..])
    ensures DecodeNoPad(EncodeNoPad(b)) == Some(b)
  {
    var g := EncodeGroup(b[0], b[1], b[2]);
    var t := EncodeNoPad(b[3..]);
    assert EncodeNoPad(b) == g + t;
    DecodeEncodeGroup(b[0], b[1], b[2]);
    DecodeNoPadConcat(g, t, [b[0], b[1], b[2]], b[3..]);
    assert [b[0], b[1], b[2]] + b[3..] == b;
  }

  /** Padded decoding of digits followed by their padding is unpadded decoding of the digits. */
  lemma DecodePaddedOfDigits(s: string, pad: string)
    requires AllDigits(s)
    requires pad == "" || pad == "=" || pad == "=="
    requires (|s| + |pad|) % 4 == 0 && (pad != "" ==> |s| >= 2)
    ensures DecodePadded(s + pad) == DecodeNoPad(s)
  {
    if pad == "==" {
      var p := s + pad;
      assert p[..|p| - 2] == s && p[|p| - 2..] == "==";
    } else if pad == "=" {
      DecodeOneEquals(s);
    } else {
      assert s + pad == s;
      DecodeNoEquals(s);
    }
  }

  lemma DecodeOneEquals(s: string)
    requires AllDigits(s) && |s| >= 2 && (|s| + 1) % 4 == 0
    ensures DecodePadded(s + "=") == DecodeNoPad(s)
  {
    var p := s + "=";
    assert p[..|p| - 1] == s && p[|p| - 1] == '=';
    assert ValueOf(s[|s| - 1]).Some?;
    assert p[|p| - 2..] != "==" by { assert p[|p| - 2..][0] == p[|p| - 2] == s[|s| - 1]; }
  }

  lemma DecodeNoEquals(s: string)
    requires AllDigits(s) && |s| % 4 == 0
    ensures DecodePadded(s) == DecodeNoPad(s)
  {
    if |s| >= 2 {
      assert ValueOf(s[|s| - 1]).Some?;
      assert s[|s| - 2..] != "==" by { assert s[|s| - 2..][1] == s[|s| - 1]; }
    }
  }

  lemma QuadMod(q: nat, r: nat)
    requires r < 4
    ensures (4 * q + r) % 4 == r
  {
  }

  /** The length of an unpadded encoding, modulo 4, from the number of bytes. */
  lemma EncodeNoPadLengthMod(b: Bytes)
    ensures |EncodeNoPad(b)| % 4 == (if |b| % 3 == 0 then 0 else |b| % 3 + 1)
  {
    EncodeNoPadShape(b);
    QuadMod(|b| / 3, if |b| % 3 == 0 then 0 else |b| % 3 + 1);
  }

  /** The padding of `n` bytes brings their unpadded encoding to a multiple of four characters. */
  lemma PaddingCompletes(len: nat, n: nat)
    requires len % 4 == (if n % 3 == 0 then 0 else n % 3 + 1)
    ensures (len + |Padding(n)|) % 4 == 0 && (Padding(n) != "" ==> len >= 2)
  {
  }

  /** Padded decoding inverts padded encoding. */
  lemma DecodeEncodePadded(b: Bytes)
    ensures DecodePadded(EncodePadded(b)) == Some(b)
  {
    var s := EncodeNoPad(b);
    var pad := Padding(|b|);
    assert AllDigits(s) by { EncodeNoPadShape(b); }
    assert (|s| + |pad|) % 4 == 0 && (pad != "" ==> |s| >= 2) by {
      EncodeNoPadLengthMod(b);
      PaddingCompletes(|s|, |b|);
    }
    DecodeEncodeNoPad(b);
    DecodePaddedOfDigits(s, pad);
  }

  /** Unpadded decoding refuses the padded form whenever it really carries padding. */
  lemma NoPadRejectsPadding(b: Bytes)
    requires |b| % 3 != 0
    ensures DecodeNoPad(EncodePadded(b)) == None
  {
    var p := EncodePadded(b);
    assert p[|p| - 1] == '=';
    NoPadRejectsLastEquals(p);
  }

  lemma {:induction false} NoPadRejectsLastEquals(s: string)
    requires |s| > 0 && s[|s| - 1] == '='
    ensures DecodeNoPad(s) == None
    decreases |s|
  {
    if |s| > 4 {
      assert s[4..][|s| - 5] == s[|s| - 1];
      NoPadRejectsLastEquals(s[4..]);
    } else if |s| == 4 {
      assert s[..4][3] == '=';
    }
  }

  /** Padded decoding refuses the unpadded form whenever padding would be due. */
  lemma PaddedRejectsMissingPadding(b: Bytes)
    requires |b| % 3 != 0
    ensures DecodePadded(EncodeNoPad(b)) == None
  {
    EncodeNoPadLengthMod(b);
  }

  /** Unpadded decoding is canonical: whatever it accepts re-encodes to the same text. */
  lemma {:induction false} EncodeDecodeNoPad(s: string)
    requires DecodeNoPad(s).Some?
    ensures EncodeNoPad(DecodeNoPad(s).value) == s
    decreases |s|
  {
    if |s| == 2 {
      EncodeDecodeTwoDigits(s);
    } else if |s| == 3 {
      EncodeDecodeThreeDigits(s);
    } else if |s| >= 4 {
      EncodeDecodeNoPad(s[4..]);
      EncodeDecodeStep(s);
    }
  }

  lemma EncodeDecodeTwoDigits(s: string)
    requires |s| == 2 && DecodeNoPad(s).Some?
    ensures EncodeNoPad(DecodeNoPad(s).value) == s
  {
    var b := DecodeNoPad(s).value;
    var v0, v1 := ValueOf(s[0]).value, ValueOf(s[1]).value;
    CharOfValueOf(s[0]);
    CharOfValueOf(s[1]);
    assert b[0] as nat / 4 == v0 && (b[0] as nat % 4) * 16 == v1;
  }

  lemma EncodeDecodeThreeDigits(s: string)
    requires |s| == 3 && DecodeNoPad(s).Some?
    ensures EncodeNoPad(DecodeNoPad(s).value) == s
  {
    var b := DecodeNoPad(s).value;
    var v0, v1, v2 := ValueOf(s[0]).value, ValueOf(s[1]).value, ValueOf(s[2]).value;
    CharOfValueOf(s[0]);
    CharOfValueOf(s[1]);
    CharOfValueOf(s[2]);
    assert b[0] as nat / 4 == v0;
    assert (b[0] as nat % 4) * 16 + b[1] as nat / 16 == v1;
    assert (b[1] as nat % 16) * 4 == v2;
  }

  /** A decoded group re-encodes to its four digits. */
  lemma EncodeDecodeGroup(q: string)
    requires |q| == 4 && DecodeGroup(q).Some?
    ensures var g := DecodeGroup(q).value; EncodeGroup(g[0], g[1], g[2]) == q
  {
    var g := DecodeGroup(q).value;
    var v0, v1 := ValueOf(q[0]).value, ValueOf(q[1]).value;
    var v2, v3 := ValueOf(q[2]).value, ValueOf(q[3]).value;
    CharOfValueOf(q[0]);
    CharOfValueOf(q[1]);
    CharOfValueOf(q[2]);
    CharOfValueOf(q[3]);
    assert g[0] as nat / 4 == v0;
    assert (g[0] as nat % 4) * 16 + g[1] as nat / 16 == v1;
    assert (g[1] as nat % 16) * 4 + g[2] as nat / 64 == v2;
    assert g[2] as nat % 64 == v3;
  }

  /** The inductive step: the leading group re-encodes, and so does the rest. */
  lemma EncodeDecodeStep(s: string)
    requires |s| >= 4 && DecodeNoPad(s).Some?
    requires DecodeNoPad(s[4..]).Some? && EncodeNoPad(DecodeNoPad(s[4..]).value) == s[4..]
    ensures EncodeNoPad(DecodeNoPad(s).value) == s
  {
    var b := DecodeNoPad(s).value;
    var g := DecodeGroup(s[..4]).value;
    var rest := DecodeNoPad(s[4..]).value;
    assert b == g + rest;
    EncodeDecodeGroup(s[..4]);
    assert b[..3] == g && b[3..] == rest;
    assert s == s[..4] + s[4..];
  }

  /** Encoding is injective: distinct byte strings never share an encoding. */
  lemma EncodeNoPadInjective(a: Bytes, b: Bytes)
    requires EncodeNoPad(a) == EncodeNoPad(b)
    ensures a == b
  {
    DecodeEncodeNoPad(a);
    DecodeEncodeNoPad(b);
  }
}
