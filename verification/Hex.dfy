/** Hexadecimal text: what encoding/hex accepts and produces. */
module Hex {
  import opened Bytes

  predicate IsDigit(c: byte) {
    || '0' as int <= c <= '9' as int
    || 'a' as int <= c <= 'f' as int
    || 'A' as int <= c <= 'F' as int
  }

  function Nibble(c: byte): (v: byte)
    requires IsDigit(c)
    ensures v < 16
  {
    if c <= '9' as int then c - '0' as int
    else if c <= 'F' as int then c - 'A' as int + 10
    else c - 'a' as int + 10
  }

  function Digit(v: byte): (c: byte)
    requires v < 16
    ensures IsDigit(c) && Nibble(c) == v && LowerByte(c) == c
  {
    if v < 10 then v + '0' as int else v - 10 + 'a' as int
  }

  /** Decodes pairs of digits; an odd length or any other byte is an error. */
  function Decode(s: bytes): Option<bytes> {
    if s == [] then Some([])
    else if |s| == 1 || !IsDigit(s[0]) || !IsDigit(s[1]) then None
    else match Decode(s[2..])
      case None => None
      case Some(rest) => Some([Nibble(s[0]) * 16 + Nibble(s[1])] + rest)
  }

  /** Lower-case hexadecimal. */
  function Encode(b: bytes): (s: bytes)
    ensures |s| == 2 * |b|
  {
    if b == [] then [] else [Digit(b[0] / 16), Digit(b[0] % 16)] + Encode(b[1..])
  }

  lemma {:induction false} DecodeDefined(s: bytes)
    ensures Decode(s).Some? <==> |s| % 2 == 0 && forall i :: 0 <= i < |s| ==> IsDigit(s[i])
  {
    if |s| >= 2 {
      DecodeDefined(s[2..]);
      assert forall i :: 2 <= i < |s| ==> s[i] == s[2..][i - 2];
    }
  }

  lemma NibbleLower(c: byte, v: byte)
    requires v < 16
    ensures LowerByte(c) == Digit(v) <==> IsDigit(c) && Nibble(c) == v
  {
  }

  lemma DecodeStep(s: bytes, b: bytes)
    requires |s| >= 2 && b != []
    ensures Decode(s) == Some(b) <==>
            && LowerByte(s[0]) == Digit(b[0] / 16) && LowerByte(s[1]) == Digit(b[0] % 16)
            && Decode(s[2..]) == Some(b[1..])
  {
    hide IsDigit, Digit, LowerByte, Nibble;
    NibbleLower(s[0], b[0] / 16);
    NibbleLower(s[1], b[0] % 16);
    assert b == [b[0]] + b[1..];
  }

  lemma LowerStep(s: bytes, b: bytes)
    requires |s| >= 2 && b != []
    ensures Lower(s) == Encode(b) <==>
            && LowerByte(s[0]) == Digit(b[0] / 16) && LowerByte(s[1]) == Digit(b[0] % 16)
            && Lower(s[2..]) == Encode(b[1..])
  {
    hide Digit, LowerByte;
    var pair := [LowerByte(s[0]), LowerByte(s[1])];
    assert Lower(s) == pair + Lower(s[2..]);
    if Lower(s) == Encode(b) {
      assert Lower(s)[2..] == Lower(s[2..]) && Encode(b)[2..] == Encode(b[1..]);
      assert Lower(s)[0] == LowerByte(s[0]) && Lower(s)[1] == LowerByte(s[1]);
    }
  }

  /** Decoding reads exactly the spellings of a byte string that differ in letter case only. */
  lemma {:induction false} DecodeIsAnySpelling(s: bytes, b: bytes)
    ensures Decode(s) == Some(b) <==> Lower(s) == Encode(b)
    decreases |s|
  {
    hide IsDigit, Digit, LowerByte, Nibble;
    if |s| < 2 || b == [] {
      assert |Lower(s)| == |s|;
    } else {
      DecodeIsAnySpelling(s[2..], b[1..]);
      DecodeStep(s, b);
      LowerStep(s, b);
    }
  }

  // ----- In numbers -----

  /** What a character counts as a hex digit: '0'-'9', 'a'-'f', 'A'-'F'; -1 for any other. */
  function DigitValue(c: int): int {
    if 48 <= c <= 57 then c - 48
    else if 97 <= c <= 102 then c - 87
    else if 65 <= c <= 70 then c - 55
    else -1
  }

  /** Two digits for each byte, high one first. */
  predicate SpelledInHex(s: bytes, b: bytes) {
    && |s| == 2 * |b|
    && forall i :: 0 <= i < |b| ==> DigitsAt(s, i) == b[i]
  }

  /** What the i-th pair of characters counts; -1 if one of them is no digit. */
  function DigitsAt(s: bytes, i: nat): int
    requires 2 * i + 1 < |s|
  {
    var high, low := DigitValue(s[2 * i]), DigitValue(s[2 * i + 1]);
    if high < 0 || low < 0 then -1 else 16 * high + low
  }

  /** Decoding, in numbers. */
  lemma {:induction false} DecodeInNumbers(s: bytes, b: bytes)
    ensures Decode(s) == Some(b) <==> SpelledInHex(s, b)
    decreases |s|
  {
    if |s| >= 2 && b != [] {
      DecodeInNumbers(s[2..], b[1..]);
      PairInNumbers(s, b);
      TailInNumbers(s, b);
      assert b == [b[0]] + b[1..];
    }
  }

  lemma PairInNumbers(s: bytes, b: bytes)
    requires |s| >= 2 && b != []
    ensures DigitsAt(s, 0) == b[0] <==> IsDigit(s[0]) && IsDigit(s[1]) && Nibble(s[0]) * 16 + Nibble(s[1]) == b[0]
  {
  }

  lemma TailInNumbers(s: bytes, b: bytes)
    requires |s| >= 2 && b != []
    ensures SpelledInHex(s, b) <==> DigitsAt(s, 0) == b[0] && SpelledInHex(s[2..], b[1..])
  {
    hide DigitValue;
    forall i | 0 <= i < |b| - 1 && |s| == 2 * |b| ensures DigitsAt(s, i + 1) == DigitsAt(s[2..], i) {
      assert s[2..][2 * i] == s[2 * (i + 1)] && s[2..][2 * i + 1] == s[2 * (i + 1) + 1];
    }
    if SpelledInHex(s, b) {
      forall i | 0 <= i < |b| - 1 ensures DigitsAt(s[2..], i) == b[1..][i] {
        assert DigitsAt(s, i + 1) == b[i + 1];
      }
    }
    if DigitsAt(s, 0) == b[0] && SpelledInHex(s[2..], b[1..]) {
      forall i | 0 <= i < |b| ensures DigitsAt(s, i) == b[i] {
        assert i > 0 ==> DigitsAt(s[2..], i - 1) == b[1..][i - 1];
      }
    }
  }

  lemma {:induction false} EncodeIsLowerDigits(b: bytes)
    ensures forall i :: 0 <= i < 2 * |b| ==> IsDigit(Encode(b)[i])
    ensures Lower(Encode(b)) == Encode(b)
  {
    if b != [] {
      EncodeIsLowerDigits(b[1..]);
      var e, t := Encode(b), Encode(b[1..]);
      assert forall i :: 2 <= i < |e| ==> e[i] == t[i - 2];
      forall i | 0 <= i < |e| ensures Lower(e)[i] == e[i] && IsDigit(e[i]) {
        if i >= 2 {
          assert Lower(t)[i - 2] == t[i - 2];
        }
      }
    }
  }

  lemma RoundTrip(b: bytes)
    ensures Decode(Encode(b)) == Some(b)
  {
    EncodeIsLowerDigits(b);
    DecodeIsAnySpelling(Encode(b), b);
  }
}
