/**
 * What a bech32 string says, read straight from its characters: BIP-173's character table as it
 * is printed there, the prefix expansion, the checksum as a 30-bit word, and the regrouping of
 * symbols into bytes as one and the same number in base 32 and base 256.
 */
module Bech32Text {
  import opened Bytes
  import opened Bech32
  import opened Bech32Words

  const TABLE := "qpzry9x8gf2tvdw0s3jn54khce6mua7l"

  /** The number that digits write, the most significant first. */
  function Number(radix: nat, digits: seq<nat>): nat {
    var n := |digits|;
    if n == 0 then 0 else Number(radix, digits[..n - 1]) * radix + digits[n - 1]
  }

  /** The prefix as BIP-173 expands it: the high bits of each character, 0, the low five bits of each. */
  function HrpWords(hrp: bytes): (r: seq<nat>)
    ensures |r| == 2 * |hrp| + 1 && forall i :: 0 <= i < |r| ==> r[i] < 32
  {
    seq(2 * |hrp| + 1, i requires 0 <= i < 2 * |hrp| + 1 =>
      if i < |hrp| then hrp[i] / 32 else if i == |hrp| then 0 else hrp[i - |hrp| - 1] % 32)
  }

  function Words(ns: seq<nat>): (r: seq<bv5>)
    requires forall i :: 0 <= i < |ns| ==> ns[i] < 32
    ensures |r| == |ns|
  {
    seq(|ns|, i requires 0 <= i < |ns| => ns[i] as bv5)
  }

  function Small(c: int): int {
    if 65 <= c <= 90 then c + 32 else c
  }

  /** A string that reads as a prefix and symbols whose checksum comes to t. */
  ghost predicate Reads(t: bv30, s: bytes, hrp: bytes, data: seq<nat>) {
    && |hrp| >= 1 && |data| >= 6 && |s| == |hrp| + 1 + |data|
    && (forall i :: 0 <= i < |s| ==> 33 <= s[i] <= 126)
    && !((exists i :: 0 <= i < |s| && 65 <= s[i] <= 90) && (exists i :: 0 <= i < |s| && 97 <= s[i] <= 122))
    && (forall i :: 0 <= i < |hrp| ==> Small(s[i]) == hrp[i])
    && s[|hrp|] == 49
    && (forall i :: 0 <= i < |data| ==> data[i] < 32)
    && (forall i :: 0 <= i < |data| ==> Small(s[|hrp| + 1 + i]) == TABLE[data[i]] as int)
    && PolymodWord(1, Words(HrpWords(hrp) + data)) == t
  }

  /** Bytes that are the same number as symbols, up to fewer than five zero bits. */
  predicate Regrouped(data: seq<nat>, raw: bytes) {
    var left := 5 * |data| - 8 * |raw|;
    0 <= left < 5 && Number(32, data) == Number(256, raw) * [1, 2, 4, 8, 16][left]
  }

  // ----- Symbols as numbers -----

  function Syms(ns: seq<nat>): (r: seq<symbol>)
    ensures |r| == |ns| && forall i :: 0 <= i < |ns| ==> r[i] == NatBits(ns[i], 5)
  {
    seq(|ns|, i requires 0 <= i < |ns| => NatBits(ns[i], 5))
  }

  function Nats(syms: seq<symbol>): (r: seq<nat>)
    ensures |r| == |syms| && forall i :: 0 <= i < |syms| ==> r[i] == BitsNat(syms[i])
  {
    seq(|syms|, i requires 0 <= i < |syms| => BitsNat(syms[i]))
  }

  lemma NatsOfSyms(ns: seq<nat>)
    requires forall i :: 0 <= i < |ns| ==> ns[i] < 32
    ensures Nats(Syms(ns)) == ns
  {
    PowerValues();
    forall i | 0 <= i < |ns| ensures Nats(Syms(ns))[i] == ns[i] {
      NatBitsInverse(ns[i], 5);
    }
  }

  lemma SymsOfNats(syms: seq<symbol>)
    ensures Syms(Nats(syms)) == syms
    ensures forall i :: 0 <= i < |syms| ==> Nats(syms)[i] < 32
  {
    PowerValues();
    forall i | 0 <= i < |syms| ensures Syms(Nats(syms))[i] == syms[i] && Nats(syms)[i] < 32 {
      BitsNatInverse(syms[i]);
    }
  }

  // ----- The expansion of the prefix -----

  lemma {:induction false} HighBitsAt(hrp: bytes)
    ensures |HighBits(hrp)| == |hrp| && forall i :: 0 <= i < |hrp| ==> HighBits(hrp)[i] == NatBits(hrp[i] / 32, 5)
  {
    if hrp != [] {
      HighBitsAt(hrp[1..]);
    }
  }

  lemma {:induction false} LowBitsAt(hrp: bytes)
    ensures |LowBits(hrp)| == |hrp| && forall i :: 0 <= i < |hrp| ==> LowBits(hrp)[i] == NatBits(hrp[i] % 32, 5)
  {
    if hrp != [] {
      LowBitsAt(hrp[1..]);
    }
  }

  lemma ExpandHrpIs(hrp: bytes)
    ensures ExpandHrp(hrp) == Syms(HrpWords(hrp))
  {
    hide NatBits, HighBits, LowBits, Zeros;
    HighBitsAt(hrp);
    LowBitsAt(hrp);
    ZeroSymbol();
    var n, e, w := |hrp|, ExpandHrp(hrp), HrpWords(hrp);
    forall i | 0 <= i < |e| ensures e[i] == Syms(w)[i] {
      if i < n {
        assert e[i] == HighBits(hrp)[i] && w[i] == hrp[i] / 32;
      } else if i > n {
        assert e[i] == LowBits(hrp)[i - n - 1] && w[i] == hrp[i - n - 1] % 32;
      }
    }
  }

  /** The expansion, place by place. */
  lemma ExpandHrpExact(hrp: bytes)
    ensures |ExpandHrp(hrp)| == 2 * |hrp| + 1 && BitsNat(ExpandHrp(hrp)[|hrp|]) == 0
    ensures forall i :: 0 <= i < |hrp| ==> BitsNat(ExpandHrp(hrp)[i]) == hrp[i] / 32
    ensures forall i :: 0 <= i < |hrp| ==> BitsNat(ExpandHrp(hrp)[|hrp| + 1 + i]) == hrp[i] % 32
  {
    hide NatBits, BitsNat, ExpandHrp;
    ExpandHrpIs(hrp);
    NatsOfSyms(HrpWords(hrp));
    var e, w := ExpandHrp(hrp), HrpWords(hrp);
    forall i | 0 <= i < |e| ensures BitsNat(e[i]) == w[i] {
      assert Nats(Syms(w))[i] == BitsNat(e[i]);
    }
    forall i | 0 <= i < |hrp|
      ensures BitsNat(e[i]) == hrp[i] / 32 && BitsNat(e[|hrp| + 1 + i]) == hrp[i] % 32
    {
      assert w[i] == hrp[i] / 32 && w[|hrp| + 1 + i] == hrp[i] % 32;
    }
  }

  lemma ZeroSymbol()
    ensures NatBits(0, 5) == Zeros(5)
  {
    assert NatBits(0, 1) == [false];
    assert NatBits(0, 2) == [false, false];
    assert NatBits(0, 3) == [false, false, false];
    assert NatBits(0, 4) == [false, false, false, false];
  }

  // ----- Symbols as words and characters -----

  lemma LastBit(n: nat, k: nat)
    ensures NatBits(n, k + 1) == NatBits(n / 2, k) + [n % 2 == 1]
  {
  }

  lemma FiveBits(n: nat)
    ensures NatBits(n, 5) == [n / 16 % 2 == 1, n / 8 % 2 == 1, n / 4 % 2 == 1, n / 2 % 2 == 1, n % 2 == 1]
  {
    assert NatBits(n / 32, 0) == [];
    hide NatBits;
    LastBit(n, 4);
    LastBit(n / 2, 3);
    LastBit(n / 4, 2);
    LastBit(n / 8, 1);
    LastBit(n / 16, 0);
    assert n / 2 / 2 == n / 4 && n / 4 / 2 == n / 8 && n / 8 / 2 == n / 16 && n / 16 / 2 == n / 32;
  }

  lemma BitsOfWord(n: nat)
    requires n < 32
    ensures BitOf(n as bv5, 4) == (n / 16 % 2 == 1)
    ensures BitOf(n as bv5, 3) == (n / 8 % 2 == 1)
    ensures BitOf(n as bv5, 2) == (n / 4 % 2 == 1)
    ensures BitOf(n as bv5, 1) == (n / 2 % 2 == 1)
    ensures BitOf(n as bv5, 0) == (n % 2 == 1)
  {
  }

  lemma WordOf(n: nat)
    requires n < 32
    ensures WordBits5(n as bv5) == NatBits(n, 5)
  {
    hide NatBits, BitOf;
    FiveBits(n);
    BitsOfWord(n);
  }

  lemma {:induction false} WordsAreSymbols(ns: seq<nat>)
    requires forall i :: 0 <= i < |ns| ==> ns[i] < 32
    ensures SymbolsOf(Words(ns)) == Syms(ns)
  {
    hide NatBits, WordBits5;
    if ns != [] {
      WordOf(ns[0]);
      var rest := ns[1..];
      WordsAreSymbols(rest);
      assert Words(ns)[0] == ns[0] as bv5 && Words(ns)[1..] == Words(rest);
      assert Syms(ns) == [NatBits(ns[0], 5)] + Syms(rest);
    }
  }

  lemma CharInTable(n: nat)
    requires n < 32
    ensures CharOf(NatBits(n, 5)) == TABLE[n] as int
  {
    PowerValues();
    NatBitsInverse(n, 5);
    hide NatBits, BitsNat;
    TableIs(n);
  }

  lemma TableIs(n: nat)
    requires n < 32
    ensures CHARSET[n] == TABLE[n] as int
  {
    if n < 16 {
      assert CHARSET[n] == TABLE[n] as int;
    }
  }

  // ----- Checksum -----

  lemma SymsAppend(a: seq<nat>, b: seq<nat>)
    ensures Syms(a + b) == Syms(a) + Syms(b)
  {
  }

  /** The checksum register of a prefix and symbols, as BIP-173's word. */
  lemma RegisterAsWord(hrp: bytes, data: seq<nat>)
    requires forall i :: 0 <= i < |data| ==> data[i] < 32
    ensures Register(hrp, Syms(data)) == WordBits(PolymodWord(1, Words(HrpWords(hrp) + data)))
  {
    hide PolymodWord, Polymod, WordBits, ExpandHrp, Words;
    ExpandHrpIs(hrp);
    SymsAppend(HrpWords(hrp), data);
    WordsAreSymbols(HrpWords(hrp) + data);
    PolymodAsWord(1, Words(HrpWords(hrp) + data));
  }

  // ----- Regrouping -----

  lemma {:induction false} BitsNatAppend(a: bits, b: bits)
    ensures BitsNat(a + b) == BitsNat(a) * Power2(|b|) + BitsNat(b)
  {
    if b == [] {
      assert a + b == a;
    } else {
      var k := |b|;
      BitsNatAppend(a, b[..k - 1]);
      assert (a + b)[..|a + b| - 1] == a + b[..k - 1];
      Doubled(BitsNat(a), Power2(k - 1));
    }
  }

  lemma Doubled(a: nat, p: nat)
    ensures a * (2 * p) == 2 * (a * p)
  {
  }

  lemma {:induction false} ZerosAreZero(k: nat)
    ensures BitsNat(Zeros(k)) == 0
  {
    if k > 0 {
      ZerosAreZero(k - 1);
      assert Zeros(k)[..k - 1] == Zeros(k - 1);
    }
  }

  lemma {:induction false} SymbolsNumber(syms: seq<symbol>)
    ensures BitsNat(SymbolsToBits(syms)) == Number(32, Nats(syms))
  {
    var n := |syms|;
    if n > 0 {
      var front, last := syms[..n - 1], syms[n - 1];
      SymbolsNumber(front);
      assert syms == front + [last];
      SymbolsToBitsAppend(front, [last]);
      assert SymbolsToBits([last]) == last;
      BitsNatAppend(SymbolsToBits(front), last);
      PowerValues();
      assert Nats(syms)[..n - 1] == Nats(front);
    }
  }

  lemma {:induction false} BytesToBitsAppend(a: bytes, b: bytes)
    ensures BytesToBits(a + b) == BytesToBits(a) + BytesToBits(b)
  {
    if a == [] {
      assert a + b == b;
    } else {
      BytesToBitsAppend(a[1..], b);
      assert (a + b)[1..] == a[1..] + b;
      Associative(ByteBits(a[0]), BytesToBits(a[1..]), BytesToBits(b));
    }
  }

  lemma {:induction false} BytesNumber(raw: bytes)
    ensures BitsNat(BytesToBits(raw)) == Number(256, raw)
  {
    var n := |raw|;
    if n > 0 {
      var front, last := raw[..n - 1], raw[n - 1];
      BytesNumber(front);
      assert raw == front + [last];
      BytesToBitsAppend(front, [last]);
      assert BytesToBits([last]) == ByteBits(last);
      BitsNatAppend(BytesToBits(front), ByteBits(last));
      PowerValues();
      NatBitsInverse(last, 8);
    }
  }

  lemma SameBits(a: bits, b: bits)
    requires |a| == |b| && BitsNat(a) == BitsNat(b)
    ensures a == b
  {
    BitsNatInverse(a);
    BitsNatInverse(b);
  }

  lemma FewPowers(k: nat)
    requires k < 5
    ensures Power2(k) == [1, 2, 4, 8, 16][k]
  {
    assert Power2(0) == 1 && Power2(1) == 2 && Power2(2) == 4 && Power2(3) == 8 && Power2(4) == 16;
  }

  lemma PaddedNumber(raw: bytes, k: nat)
    requires k < 5
    ensures BitsNat(BytesToBits(raw) + Zeros(k)) == Number(256, raw) * [1, 2, 4, 8, 16][k]
  {
    BitsNatAppend(BytesToBits(raw), Zeros(k));
    ZerosAreZero(k);
    FewPowers(k);
    BytesNumber(raw);
  }

  /** Regrouping, as one number in two bases. */
  lemma RegroupInNumbers(syms: seq<symbol>, raw: bytes)
    ensures ToBytes(syms) == Some(raw) <==> Regrouped(Nats(syms), raw)
  {
    hide ToBytes, SymbolsToBits, BytesToBits, BitsToSymbols, BitsNat, Number;
    RegroupExact(syms, raw);
    SymbolsNumber(syms);
    var left := 5 * |syms| - 8 * |raw|;
    var k := Padding(8 * |raw|);
    PaddingFits(8 * |raw|);
    PaddedNumber(raw, k);
    SymbolsBitsSymbols(syms);
    BitsSymbolsBits(BytesToBits(raw) + Zeros(k));
    if Regrouped(Nats(syms), raw) {
      PaddingFills(8 * |raw|, left, |syms|);
      SameBits(SymbolsToBits(syms), BytesToBits(raw) + Zeros(k));
    }
  }

  // ----- Whole strings -----

  /** Lower-casing, and what it says of letter case, in numbers. */
  lemma LowerInNumbers(s: bytes)
    ensures forall i :: 0 <= i < |s| ==> Lower(s)[i] == Small(s[i])
    ensures MixedCase(s) <==>
            (exists i :: 0 <= i < |s| && 65 <= s[i] <= 90) && (exists i :: 0 <= i < |s| && 97 <= s[i] <= 122)
  {
    assert forall i :: 0 <= i < |s| ==> (IsUpper(s[i]) <==> 65 <= s[i] <= 90);
    assert forall i :: 0 <= i < |s| ==> (IsLower(s[i]) <==> 97 <= s[i] <= 122);
  }

  lemma CharsInTable(data: seq<nat>)
    requires forall i :: 0 <= i < |data| ==> data[i] < 32
    ensures forall i :: 0 <= i < |data| ==> Bech32.Chars(Syms(data))[i] == TABLE[data[i]] as int
  {
    hide CharOf, NatBits;
    forall i | 0 <= i < |data| ensures Bech32.Chars(Syms(data))[i] == TABLE[data[i]] as int {
      CharInTable(data[i]);
    }
  }

  lemma JoinedByOne(low: bytes, hrp: bytes, tail: bytes)
    ensures low == hrp + [SEPARATOR] + tail <==>
            && |low| == |hrp| + 1 + |tail|
            && (forall i :: 0 <= i < |hrp| ==> low[i] == hrp[i])
            && low[|hrp|] == 49
            && (forall i :: 0 <= i < |tail| ==> low[|hrp| + 1 + i] == tail[i])
  {
    if |low| == |hrp| + 1 + |tail| && (forall i :: 0 <= i < |hrp| ==> low[i] == hrp[i]) && low[|hrp|] == 49
       && (forall i :: 0 <= i < |tail| ==> low[|hrp| + 1 + i] == tail[i]) {
      assert low[..|hrp|] == hrp;
      assert low[|hrp| + 1..] == tail;
      SplitAt(low, |hrp|);
    }
  }

  /** Reading is spelling: the characters, the range they are in, their case and the checksum. */
  lemma ReadsIsSpelling(t: bv30, s: bytes, hrp: bytes, data: seq<nat>)
    requires forall i :: 0 <= i < |data| ==> data[i] < 32
    ensures Reads(t, s, hrp, data) <==>
            && |hrp| >= 1 && |data| >= 6 && Printable(s) && !MixedCase(s)
            && Lower(s) == hrp + [SEPARATOR] + Bech32.Chars(Syms(data))
            && PolymodWord(1, Words(HrpWords(hrp) + data)) == t
  {
    hide PolymodWord, Words, HrpWords, Bech32.Chars, Syms, MixedCase, Lower, Small;
    LowerInNumbers(s);
    CharsInTable(data);
    JoinedByOne(Lower(s), hrp, Bech32.Chars(Syms(data)));
  }

  lemma DataOfSpelling(t: state, hrp: bytes, raw: bytes) returns (data: seq<nat>)
    ensures |data| >= 6 && forall i :: 0 <= i < |data| ==> data[i] < 32
    ensures Encode(t, hrp, raw) == hrp + [SEPARATOR] + Bech32.Chars(Syms(data))
    ensures Register(hrp, Syms(data)) == t && Regrouped(data[..|data| - 6], raw)
  {
    hide Register, Checksum, ToSymbols, Regrouped;
    var front := ToSymbols(raw);
    var syms := front + Checksum(t, hrp, front);
    data := Nats(syms);
    SymsOfNats(syms);
    ChecksumExact(t, hrp, front, Checksum(t, hrp, front));
    RegroupExact(front, raw);
    RegroupInNumbers(front, raw);
    assert data[..|data| - 6] == Nats(front);
  }

  lemma SpellingOfData(t: state, hrp: bytes, raw: bytes, data: seq<nat>)
    requires |data| >= 6 && forall i :: 0 <= i < |data| ==> data[i] < 32
    requires Register(hrp, Syms(data)) == t && Regrouped(data[..|data| - 6], raw)
    ensures Encode(t, hrp, raw) == hrp + [SEPARATOR] + Bech32.Chars(Syms(data))
  {
    hide Register, Checksum, ToSymbols, Regrouped, Syms;
    var n := |data| - 6;
    var front, last := Syms(data[..n]), Syms(data[n..]);
    assert data == data[..n] + data[n..];
    SymsAppend(data[..n], data[n..]);
    NatsOfSyms(data[..n]);
    RegroupInNumbers(front, raw);
    RegroupExact(front, raw);
    ChecksumExact(t, hrp, front, last);
  }

  /**
   * The accepted language, in numbers: a string decodes to a prefix and bytes exactly when it
   * reads as the prefix and symbols under an accepted constant, and the symbols but the last six
   * are the bytes.
   */
  lemma DecodeInNumbers(targets: set<state>, s: bytes, hrp: bytes, raw: bytes)
    ensures Decode(targets, s) == Some((hrp, raw)) <==>
            exists t, data :: WordBits(t) in targets && Reads(t, s, hrp, data) && Regrouped(data[..|data| - 6], raw)
  {
    hide Decode, Register, PolymodWord, WordBits, Regrouped, Encode, MixedCase, Words, HrpWords, Syms;
    DecodeExact(targets, s, hrp, raw);
    if Decode(targets, s) == Some((hrp, raw)) {
      var c :| c in targets && Lower(s) == Encode(c, hrp, raw);
      var data := DataOfSpelling(c, hrp, raw);
      var t := PolymodWord(1, Words(HrpWords(hrp) + data));
      RegisterAsWord(hrp, data);
      DecodedIsPrintable(targets, s);
      ReadsIsSpelling(t, s, hrp, data);
    }
    forall t, data | WordBits(t) in targets && Reads(t, s, hrp, data) && Regrouped(data[..|data| - 6], raw)
      ensures Decode(targets, s) == Some((hrp, raw))
    {
      RegisterAsWord(hrp, data);
      ReadsIsSpelling(t, s, hrp, data);
      SpellingOfData(WordBits(t), hrp, raw, data);
      HrpOfLower(s, hrp, Bech32.Chars(Syms(data)));
    }
  }

  lemma DecodedIsPrintable(targets: set<state>, s: bytes)
    requires Decode(targets, s).Some?
    ensures Printable(s)
  {
  }
}
