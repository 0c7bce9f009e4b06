/**
 * A canonical mainnet enterprise address whose hexadecimal spelling happens to be valid bech32,
 * and which is refused for that reason when it is supplied in hexadecimal.
 */
module RefusedHex {
  import opened Bytes
  import opened Addresses
  import opened Bech32
  import opened Bech32Words
  import Hex

  function Repeat(b: byte, n: nat): (r: bytes)
    ensures |r| == n && forall i :: 0 <= i < n ==> r[i] == b
  {
    seq(n, _ => b)
  }

  const TAIL: bytes := [0x0f, 0x5c, 0x20, 0xf4, 0x33]

  /** Header 0x61 and the hash 00..00 0f 5c 20 f4 33. */
  const REFUSED: bytes := [0x61] + Repeat(0, 23) + TAIL

  // "f5c20f433"
  const LAST_DIGITS: bytes := [0x66, 0x35, 0x63, 0x32, 0x30, 0x66, 0x34, 0x33, 0x33]
  const LAST_SYMBOLS: seq<bv5> := [9, 20, 24, 10, 15, 9, 21, 17, 17]

  const HRP: bytes := [0x36] // "6"

  // ----- The spelling -----

  lemma {:induction false} HexAppend(a: bytes, b: bytes)
    ensures Hex.Encode(a + b) == Hex.Encode(a) + Hex.Encode(b)
  {
    hide Hex.Digit;
    if a == [] {
      assert a + b == b;
    } else {
      HexAppend(a[1..], b);
      assert (a + b)[1..] == a[1..] + b;
      Associative([Hex.Digit(a[0] / 16), Hex.Digit(a[0] % 16)], Hex.Encode(a[1..]), Hex.Encode(b));
    }
  }

  lemma {:induction false} HexOfZeros(n: nat)
    ensures Hex.Encode(Repeat(0, n)) == Repeat(0x30, 2 * n)
  {
    if n > 0 {
      HexOfZeros(n - 1);
      assert Repeat(0, n)[1..] == Repeat(0, n - 1);
      assert [0x30, 0x30] + Repeat(0x30, 2 * (n - 1)) == Repeat(0x30, 2 * n);
    }
  }

  lemma HexHead(a: byte, b: bytes)
    ensures Hex.Encode([a] + b) == [Hex.Digit(a / 16), Hex.Digit(a % 16)] + Hex.Encode(b)
  {
    hide Hex.Digit;
  }

  lemma HexOfFive(a: byte, b: byte, c: byte, d: byte, e: byte)
    ensures Hex.Encode([a, b, c, d, e]) ==
            [Hex.Digit(a / 16), Hex.Digit(a % 16), Hex.Digit(b / 16), Hex.Digit(b % 16), Hex.Digit(c / 16),
             Hex.Digit(c % 16), Hex.Digit(d / 16), Hex.Digit(d % 16), Hex.Digit(e / 16), Hex.Digit(e % 16)]
  {
    hide Hex.Digit, Hex.Encode;
    HexHead(a, [b, c, d, e]);
    HexHead(b, [c, d, e]);
    HexHead(c, [d, e]);
    HexHead(d, [e]);
    HexHead(e, []);
    HexOfNone();
    assert [a] + [b, c, d, e] == [a, b, c, d, e] && [b] + [c, d, e] == [b, c, d, e];
    assert [c] + [d, e] == [c, d, e] && [d] + [e] == [d, e] && [e] + [] == [e];
  }

  lemma HexOfNone()
    ensures Hex.Encode([]) == []
  {
  }

  lemma HeadSpelling()
    ensures Hex.Encode([0x61]) == HRP + [SEPARATOR]
  {
    assert Hex.Encode([]) == [];
  }

  lemma TailSpelling()
    ensures Hex.Encode(TAIL) == [0x30] + LAST_DIGITS
  {
    hide Hex.Encode;
    HexOfFive(0x0f, 0x5c, 0x20, 0xf4, 0x33);
  }

  lemma Spelling()
    ensures Hex.Encode(REFUSED) == HRP + [SEPARATOR] + (Repeat(0x30, 47) + LAST_DIGITS)
  {
    hide Hex.Encode;
    HexAppend([0x61] + Repeat(0, 23), TAIL);
    HexAppend([0x61], Repeat(0, 23));
    HeadSpelling();
    HexOfZeros(23);
    TailSpelling();
    Regroup47(HRP + [SEPARATOR], LAST_DIGITS);
  }

  lemma Regroup47(head: bytes, last: bytes)
    ensures head + Repeat(0x30, 46) + ([0x30] + last) == head + (Repeat(0x30, 47) + last)
  {
    assert Repeat(0x30, 46) + [0x30] == Repeat(0x30, 47);
  }

  // ----- The symbols -----

  function Fifteens(n: nat): (r: seq<bv5>)
    ensures |r| == n && forall i :: 0 <= i < n ==> r[i] == 15
  {
    if n == 0 then [] else [15] + Fifteens(n - 1)
  }

  lemma BitsNatFive(r: bits)
    requires |r| == 5
    ensures BitsNat(r) == (if r[0] then 16 else 0) + (if r[1] then 8 else 0) + (if r[2] then 4 else 0)
                          + (if r[3] then 2 else 0) + (if r[4] then 1 else 0)
  {
    assert r[..4][..3] == r[..3] && r[..3][..2] == r[..2] && r[..2][..1] == r[..1] && r[..1][..0] == [];
    assert BitsNat(r[..1]) == if r[0] then 1 else 0;
    assert BitsNat(r[..2]) == 2 * BitsNat(r[..1]) + if r[1] then 1 else 0;
    assert BitsNat(r[..3]) == 2 * BitsNat(r[..2]) + if r[2] then 1 else 0;
    assert BitsNat(r[..4]) == 2 * BitsNat(r[..3]) + if r[3] then 1 else 0;
  }

  lemma CharsUsed()
    ensures CharOf(WordBits5(15)) == 0x30 && CharOf(WordBits5(9)) == 0x66 && CharOf(WordBits5(20)) == 0x35
    ensures CharOf(WordBits5(24)) == 0x63 && CharOf(WordBits5(10)) == 0x32 && CharOf(WordBits5(21)) == 0x34
    ensures CharOf(WordBits5(17)) == 0x33
  {
    BitsNatFive(WordBits5(15));
    BitsNatFive(WordBits5(9));
    BitsNatFive(WordBits5(20));
    BitsNatFive(WordBits5(24));
    BitsNatFive(WordBits5(10));
    BitsNatFive(WordBits5(21));
    BitsNatFive(WordBits5(17));
  }

  lemma {:induction false} SymbolsOfAppend(a: seq<bv5>, b: seq<bv5>)
    ensures SymbolsOf(a + b) == SymbolsOf(a) + SymbolsOf(b)
  {
    hide WordBits5;
    if a == [] {
      assert a + b == b;
    } else {
      SymbolsOfAppend(a[1..], b);
      assert (a + b)[1..] == a[1..] + b;
      Associative([WordBits5(a[0])], SymbolsOf(a[1..]), SymbolsOf(b));
    }
  }

  lemma {:induction false} SymbolsOfAt(vs: seq<bv5>, i: nat)
    requires i < |vs|
    ensures SymbolsOf(vs)[i] == WordBits5(vs[i])
  {
    hide WordBits5;
    if i > 0 {
      SymbolsOfAt(vs[1..], i - 1);
    }
  }

  lemma {:induction false} CharsOfFifteens(n: nat)
    ensures Chars(SymbolsOf(Fifteens(n))) == Repeat(0x30, n)
  {
    hide WordBits5, CharOf;
    CharsUsed();
    if n == 0 {
      assert |Chars(SymbolsOf(Fifteens(0)))| == 0;
    } else {
      CharsOfFifteens(n - 1);
      CharsCons(WordBits5(15), SymbolsOf(Fifteens(n - 1)));
      assert Fifteens(n)[1..] == Fifteens(n - 1);
      assert Repeat(0x30, n) == [0x30] + Repeat(0x30, n - 1);
    }
  }

  lemma CharsOfLast()
    ensures Chars(SymbolsOf(LAST_SYMBOLS)) == LAST_DIGITS
  {
    hide WordBits5, CharOf, SymbolsOf;
    CharsUsed();
    forall i: nat | i < 9 ensures Chars(SymbolsOf(LAST_SYMBOLS))[i] == LAST_DIGITS[i] {
      SymbolsOfAt(LAST_SYMBOLS, i);
    }
  }

  const DATA: seq<bv5> := Fifteens(47) + LAST_SYMBOLS

  lemma DataChars()
    ensures Chars(SymbolsOf(DATA)) == Repeat(0x30, 47) + LAST_DIGITS
  {
    hide Chars, SymbolsOf, Fifteens;
    SymbolsOfAppend(Fifteens(47), LAST_SYMBOLS);
    CharsAppend(SymbolsOf(Fifteens(47)), SymbolsOf(LAST_SYMBOLS));
    CharsOfFifteens(47);
    CharsOfLast();
  }

  // ----- The checksum -----

  lemma PrefixSteps()
    ensures StepWord(StepWord(StepWord(1, 1), 0), 22) == 0x8416
  {
  }

  const WORD: seq<bv5> := [1, 0, 22] + DATA

  lemma WordAt()
    ensures |WORD| == 59 && WORD[0] == 1 && WORD[1] == 0 && WORD[2] == 22
    ensures forall i :: 3 <= i < 50 ==> WORD[i] == 15
    ensures forall i :: 50 <= i < 59 ==> WORD[i] == LAST_SYMBOLS[i - 50]
  {
    hide Fifteens;
    assert |DATA| == 56;
    assert forall i :: 0 <= i < 47 ==> DATA[i] == Fifteens(47)[i];
    assert forall i :: 47 <= i < 56 ==> DATA[i] == LAST_SYMBOLS[i - 47];
    assert forall i :: 3 <= i < 59 ==> WORD[i] == DATA[i - 3];
  }

  lemma RegisterAfter11()
    ensures PolymodWord(0x8416, WORD[3..]) == PolymodWord(0x315dd552, WORD[11..])
  {
    hide PolymodWord;
    WordAt();
    assert EightSteps(0x8416, 15, 15, 15, 15, 15, 15, 15, 15) == 0x315dd552;
    RegisterMoves(WORD, 0x8416, 3, 0x315dd552);
  }

  lemma RegisterAfter19()
    ensures PolymodWord(0x315dd552, WORD[11..]) == PolymodWord(0x3e08cab1, WORD[19..])
  {
    hide PolymodWord;
    WordAt();
    assert EightSteps(0x315dd552, 15, 15, 15, 15, 15, 15, 15, 15) == 0x3e08cab1;
    RegisterMoves(WORD, 0x315dd552, 11, 0x3e08cab1);
  }

  lemma RegisterAfter27()
    ensures PolymodWord(0x3e08cab1, WORD[19..]) == PolymodWord(0x3209df03, WORD[27..])
  {
    hide PolymodWord;
    WordAt();
    assert EightSteps(0x3e08cab1, 15, 15, 15, 15, 15, 15, 15, 15) == 0x3209df03;
    RegisterMoves(WORD, 0x3e08cab1, 19, 0x3209df03);
  }

  lemma RegisterAfter35()
    ensures PolymodWord(0x3209df03, WORD[27..]) == PolymodWord(0x4e10a83, WORD[35..])
  {
    hide PolymodWord;
    WordAt();
    assert EightSteps(0x3209df03, 15, 15, 15, 15, 15, 15, 15, 15) == 0x4e10a83;
    RegisterMoves(WORD, 0x3209df03, 27, 0x4e10a83);
  }

  lemma RegisterAfter43()
    ensures PolymodWord(0x4e10a83, WORD[35..]) == PolymodWord(0x18ef5d53, WORD[43..])
  {
    hide PolymodWord;
    WordAt();
    assert EightSteps(0x4e10a83, 15, 15, 15, 15, 15, 15, 15, 15) == 0x18ef5d53;
    RegisterMoves(WORD, 0x4e10a83, 35, 0x18ef5d53);
  }

  lemma RegisterAfter51()
    ensures PolymodWord(0x18ef5d53, WORD[43..]) == PolymodWord(0x3f4ba699, WORD[51..])
  {
    hide PolymodWord;
    WordAt();
    assert EightSteps(0x18ef5d53, 15, 15, 15, 15, 15, 15, 15, 9) == 0x3f4ba699;
    RegisterMoves(WORD, 0x18ef5d53, 43, 0x3f4ba699);
  }

  lemma RegisterAfter59()
    ensures PolymodWord(0x3f4ba699, WORD[51..]) == PolymodWord(0x1, WORD[59..])
  {
    hide PolymodWord;
    WordAt();
    assert EightSteps(0x3f4ba699, 20, 24, 10, 15, 9, 21, 17, 17) == 0x1;
    RegisterMoves(WORD, 0x3f4ba699, 51, 0x1);
  }

  lemma RegisterAfterPrefix()
    ensures PolymodWord(1, WORD) == PolymodWord(0x8416, WORD[3..])
  {
    hide PolymodWord, StepWord;
    WordAt();
    PrefixSteps();
    assert WORD[0..] == WORD;
    OneStep(1, WORD, 0);
    OneStep(StepWord(1, 1), WORD, 1);
    OneStep(StepWord(StepWord(1, 1), 0), WORD, 2);
  }

  lemma WordHolds()
    ensures PolymodWord(1, WORD) == 1
  {
    hide PolymodWord;
    RegisterAfterPrefix();
    RegisterAfter11();
    RegisterAfter19();
    RegisterAfter27();
    RegisterAfter35();
    RegisterAfter43();
    RegisterAfter51();
    RegisterAfter59();
    WordAt();
    assert WORD[59..] == [];
    NothingLeft(1);
  }

  lemma NothingLeft(c: bv30)
    ensures PolymodWord(c, []) == c
  {
  }

  lemma HrpBits()
    ensures NatBits(1, 5) == [false, false, false, false, true]
    ensures NatBits(22, 5) == [true, false, true, true, false]
  {
    assert NatBits(0, 1) == [false];
    assert NatBits(0, 2) == [false, false];
    assert NatBits(0, 3) == [false, false, false];
    assert NatBits(0, 4) == [false, false, false, false];
    assert NatBits(1, 1) == [true];
    assert NatBits(2, 2) == [true, false];
    assert NatBits(5, 3) == [true, false, true];
    assert NatBits(11, 4) == [true, false, true, true];
  }

  lemma HrpWords()
    ensures WordBits5(1) == NatBits(1, 5) && WordBits5(0) == Zeros(5) && WordBits5(22) == NatBits(22, 5)
  {
    hide NatBits;
    HrpBits();
  }

  lemma HrpSymbols()
    ensures ExpandHrp(HRP) == SymbolsOf([1, 0, 22])
  {
    hide NatBits, WordBits5, Zeros;
    HrpWords();
    assert HighBits([]) == [] && LowBits([]) == [];
    assert HighBits(HRP) == [NatBits(1, 5)] && LowBits(HRP) == [NatBits(22, 5)];
    assert SymbolsOf([22]) == [WordBits5(22)];
    assert SymbolsOf([0, 22]) == [WordBits5(0)] + SymbolsOf([22]);
    assert SymbolsOf([1, 0, 22]) == [WordBits5(1)] + SymbolsOf([0, 22]);
  }

  lemma ChecksumIsGood()
    ensures Register(HRP, SymbolsOf(DATA)) == ONE
  {
    hide Polymod, PolymodWord, SymbolsOf, ExpandHrp, WordBits;
    HrpSymbols();
    SymbolsOfAppend([1, 0, 22], DATA);
    PolymodAsWord(1, WORD);
    WordHolds();
  }

  lemma PaddingIsGood(syms: seq<symbol>)
    requires |syms| == 50 && !syms[49][3] && !syms[49][4]
    ensures ToBytes(syms).Some?
  {
    var front, last := syms[..49], syms[49];
    assert syms == front + [last];
    SymbolsToBitsAppend(front, [last]);
    assert SymbolsToBits([last]) == last;
    var all := SymbolsToBits(syms);
    assert all == SymbolsToBits(front) + last && |all| == 250;
    var left := all[248..];
    assert WholeBits(250) == 248;
    assert left[0] == last[3] && left[1] == last[4] && |left| == 2;
  }

  lemma IsBech32(checksums: set<state>)
    requires ONE in checksums
    ensures Bech32.Decode(checksums, Hex.Encode(REFUSED)).Some?
  {
    hide Chars, SymbolsOf, Fifteens, Register, ToBytes, Symbols, LastSeparator;
    var s, syms := Hex.Encode(REFUSED), SymbolsOf(DATA);
    Spelling();
    DataChars();
    CharsAreData(syms);
    assert s == HRP + [SEPARATOR] + Chars(syms) && |syms| == 56;
    SeparatorAt(s, HRP, Chars(syms));
    assert s[..1] == HRP && s[2..] == Chars(syms);
    SymbolsExact(Chars(syms), syms);
    ChecksumIsGood();
    assert DecodeLower(checksums, s) == Some((HRP, syms[..50]));
    SymbolsOfAt(DATA, 49);
    WordAt();
    assert DATA[49] == WORD[52] == 24;
    PaddingIsGood(syms[..50]);
    Hex.EncodeIsLowerDigits(REFUSED);
    LowerIsNotUpper(s);
    assert Printable(s) by {
      forall i | 0 <= i < |s| ensures 33 <= s[i] <= 126 {
        assert Hex.IsDigit(s[i]);
      }
    }
  }

  /**
   * Supplying a raw address in hexadecimal does not always work: this one is canonical, and its
   * only lower-case hexadecimal spelling is refused, whatever the codec accepts beside BIP-173.
   */
  lemma CanonicalAddressRefused(checksums: set<state>)
    requires ONE in checksums
    ensures ParseValue(REFUSED).Success?
    ensures ParseValue(REFUSED).value.network == MAINNET && ParseValue(REFUSED).value.addrType == 6
    ensures DecodeValue(checksums, Hex.Encode(REFUSED)).Failure?
  {
    hide Bech32.Decode, DecodeValue, Hex.Encode, Hex.Decode;
    assert |REFUSED| == 29 && REFUSED[0] == 0x61;
    IsBech32(checksums);
    Hex.RoundTrip(REFUSED);
    HexInput(checksums, Hex.Encode(REFUSED), REFUSED);
  }
}
