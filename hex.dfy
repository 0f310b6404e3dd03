/** Lower-case hexadecimal, as `hex::encode`, with the matching decoder as its inverse. */
module Hex {
  import opened Prelude

  const Digits: string := "0123456789abcdef"

  /** A lower-case hexadecimal digit. */
  predicate IsHexDigit(c: char)
  {
    '0' <= c <= '9' || 'a' <= c <= 'f'
  }

  function DigitValue(c: char): (r: Option<nat>)
    ensures r.Some? ==> r.value < 16
  {
    if '0' <= c <= '9' then Some(c as int - '0' as int)
    else if 'a' <= c <= 'f' then Some(c as int - 'a' as int + 10)
    else None
  }

  /** `hex::encode`: two digits per byte, high nibble first. */
  function Encode(b: Bytes): string
  {
    if b == [] then [] else [Digits[b[0] / 16], Digits[b[0] % 16]] + Encode(b[1..])
  }

  function Decode(s: string): Option<Bytes>
    decreases |s|
  {
    if s == [] then Some([])
    else if |s| == 1 then None
    else
      match (DigitValue(s[0]), DigitValue(s[1]), Decode(s[2..]))
      case (Some(hi), Some(lo), Some(rest)) => Some([(hi * 16 + lo) as byte] + rest)
      case _ => None
  }

  /** An encoding has two lower-case hex digits per byte. */
  lemma {:induction false} EncodeShape(b: Bytes)
    ensures |Encode(b)| == 2 * |b|
    ensures forall i :: 0 <= i < |Encode(b)| ==> IsHexDigit(Encode(b)[i])
  {
    if b != [] {
      EncodeShape(b[1..]);
      var h := [Digits[b[0] / 16], Digits[b[0] % 16]];
      var t := Encode(b[1..]);
      assert Encode(b) == h + t;
      forall i | 0 <= i < |h + t| ensures IsHexDigit((h + t)[i]) {
        if i >= 2 {
          assert (h + t)[i] == t[i - 2];
        }
      }
    }
  }

  /** Decoding inverts encoding. */
  lemma {:induction false} DecodeEncode(b: Bytes)
    ensures Decode(Encode(b)) == Some(b)
  {
    if b != [] {
      var h := [Digits[b[0] / 16], Digits[b[0] % 16]];
      var t := Encode(b[1..]);
      assert Encode(b) == h + t && (h + t)[2..] == t;
      assert DigitValue(h[0]) == Some(b[0] as int / 16);
      assert DigitValue(h[1]) == Some(b[0] as int % 16);
      DecodeEncode(b[1..]);
      assert [b[0]] + b[1..] == b;
    }
  }
}
