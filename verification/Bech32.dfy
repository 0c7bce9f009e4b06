/**
 * Bech32 after BIP-173, without its 90-character cap: the character set, the checksum over
 * GF(32), and the regrouping between 8-bit bytes and 5-bit symbols. Symbols and checksum states
 * are bit strings, most significant bit first.
 */
module Bech32 {
  import opened Bytes

  type bits = seq<bool>
  type symbol = s: bits | |s| == 5 witness [false, false, false, false, false]
  type state = s: bits | |s| == 30 witness seq(30, _ => false)

  // ----- Bit strings -----

  /** The low k bits of n, most significant first. */
  function NatBits(n: nat, k: nat): (r: bits)
    ensures |r| == k
  {
    if k == 0 then [] else NatBits(n / 2, k - 1) + [n % 2 == 1]
  }

  function BitsNat(r: bits): nat {
    var k := |r|;
    if k == 0 then 0 else 2 * BitsNat(r[..k - 1]) + if r[k - 1] then 1 else 0
  }

  function Power2(k: nat): nat {
    if k == 0 then 1 else 2 * Power2(k - 1)
  }

  lemma {:induction false} NatBitsInverse(n: nat, k: nat)
    requires n < Power2(k)
    ensures BitsNat(NatBits(n, k)) == n
  {
    if k > 0 {
      NatBitsInverse(n / 2, k - 1);
      assert NatBits(n, k)[..k - 1] == NatBits(n / 2, k - 1);
    }
  }

  lemma {:induction false} BitsNatInverse(r: bits)
    ensures BitsNat(r) < Power2(|r|) && NatBits(BitsNat(r), |r|) == r
  {
    if r != [] {
      BitsNatInverse(r[..|r| - 1]);
    }
  }

  lemma PowerValues()
    ensures Power2(5) == 32 && Power2(8) == 256
  {
    assert Power2(3) == 8;
    assert Power2(6) == 64;
  }

  function Zeros(n: nat): (r: bits)
    ensures |r| == n && forall i :: 0 <= i < n ==> !r[i]
  {
    seq(n, _ => false)
  }

  function Xor(a: bits, b: bits): (r: bits)
    requires |a| == |b|
    ensures |r| == |a| && forall i :: 0 <= i < |a| ==> r[i] == (a[i] != b[i])
  {
    seq(|a|, i requires 0 <= i < |a| => a[i] != b[i])
  }

  // ----- The character set -----

  const SEPARATOR: byte := 49 // '1'

  const CHARSET: bytes := [
    113, 112, 122, 114, 121, 57, 120, 56, // qpzry9x8
    103, 102, 50, 116, 118, 100, 119, 48, // gf2tvdw0
    115, 51, 106, 110, 53, 52, 107, 104, // s3jn54kh
    99, 101, 54, 109, 117, 97, 55, 108 // ce6mua7l
  ]

  function CharOf(s: symbol): (c: byte)
    ensures c != SEPARATOR && 33 <= c <= 126 && LowerByte(c) == c
  {
    PowerValues();
    BitsNatInverse(s);
    CharsetIsLower(BitsNat(s));
    CHARSET[BitsNat(s)]
  }

  lemma CharsetIsLower(i: nat)
    requires i < 32
    ensures CHARSET[i] != SEPARATOR && 33 <= CHARSET[i] <= 126 && LowerByte(CHARSET[i]) == CHARSET[i]
  {
  }

  function ValueOf(c: byte): Option<nat> {
    match c
    case 113 => Some(0)
    case 112 => Some(1)
    case 122 => Some(2)
    case 114 => Some(3)
    case 121 => Some(4)
    case 57 => Some(5)
    case 120 => Some(6)
    case 56 => Some(7)
    case 103 => Some(8)
    case 102 => Some(9)
    case 50 => Some(10)
    case 116 => Some(11)
    case 118 => Some(12)
    case 100 => Some(13)
    case 119 => Some(14)
    case 48 => Some(15)
    case 115 => Some(16)
    case 51 => Some(17)
    case 106 => Some(18)
    case 110 => Some(19)
    case 53 => Some(20)
    case 52 => Some(21)
    case 107 => Some(22)
    case 104 => Some(23)
    case 99 => Some(24)
    case 101 => Some(25)
    case 54 => Some(26)
    case 109 => Some(27)
    case 117 => Some(28)
    case 97 => Some(29)
    case 55 => Some(30)
    case 108 => Some(31)
    case _ => None
  }

  function SymbolOf(c: byte): Option<symbol> {
    match ValueOf(c)
    case None => None
    case Some(v) => Some(NatBits(v, 5))
  }

  lemma ValueOfChar(i: nat)
    requires i < 32
    ensures ValueOf(CHARSET[i]) == Some(i)
  {
    if i < 16 {
      assert ValueOf(CHARSET[i]) == Some(i);
    }
  }

  lemma CharOfValue(c: byte)
    requires ValueOf(c).Some?
    ensures ValueOf(c).value < 32 && CHARSET[ValueOf(c).value] == c
  {
  }

  lemma CharsetBijective(c: byte, s: symbol)
    ensures SymbolOf(c) == Some(s) <==> CharOf(s) == c
  {
    PowerValues();
    BitsNatInverse(s);
    ValueOfChar(BitsNat(s));
    if ValueOf(c).Some? {
      CharOfValue(c);
      NatBitsInverse(ValueOf(c).value, 5);
    }
  }

  function Chars(syms: seq<symbol>): (r: bytes)
    ensures |r| == |syms|
    ensures forall i :: 0 <= i < |syms| ==> r[i] == CharOf(syms[i])
  {
    seq(|syms|, i requires 0 <= i < |syms| => CharOf(syms[i]))
  }

  function Symbols(s: bytes): (r: Option<seq<symbol>>)
    ensures r.Some? ==> |r.value| == |s|
  {
    if s == [] then Some([]) else
    match (SymbolOf(s[0]), Symbols(s[1..]))
    case (Some(first), Some(rest)) => Some([first] + rest)
    case _ => None
  }

  lemma CharsCons(first: symbol, rest: seq<symbol>)
    ensures Chars([first] + rest) == [CharOf(first)] + Chars(rest)
  {
    hide CharOf;
  }

  lemma CharsAppend(a: seq<symbol>, b: seq<symbol>)
    ensures Chars(a + b) == Chars(a) + Chars(b)
  {
    hide CharOf;
  }

  lemma {:induction false} SymbolsExact(s: bytes, syms: seq<symbol>)
    ensures Symbols(s) == Some(syms) <==> s == Chars(syms)
  {
    hide CharOf, SymbolOf, Chars;
    if s == [] {
      assert |Chars(syms)| == |syms|;
    } else if syms == [] {
      assert |Chars(syms)| == 0;
    } else {
      var c, v := s[0], syms[0];
      assert s == [c] + s[1..] && syms == [v] + syms[1..];
      CharsetBijective(c, v);
      SymbolsExact(s[1..], syms[1..]);
      CharsCons(v, syms[1..]);
      assert [c] + s[1..] == [CharOf(v)] + Chars(syms[1..]) <==> c == CharOf(v) && s[1..] == Chars(syms[1..]) by {
        ConsInjective(c, s[1..], CharOf(v), Chars(syms[1..]));
      }
      if Symbols(s).Some? {
        ConsInjective(SymbolOf(c).value, Symbols(s[1..]).value, v, syms[1..]);
      }
    }
  }

  lemma ConsInjective<T>(a: T, s: seq<T>, b: T, t: seq<T>)
    ensures [a] + s == [b] + t <==> a == b && s == t
  {
    if [a] + s == [b] + t {
      assert ([a] + s)[0] == ([b] + t)[0];
      assert ([a] + s)[1..] == ([b] + t)[1..];
    }
  }

  // ----- The checksum -----

  /** The bits of a 5-bit and of a 30-bit word. */
  function BitOf(w: bv5, i: nat): bool
    requires i < 5
  {
    match i
    case 0 => w & 1 != 0
    case 1 => w & 2 != 0
    case 2 => w & 4 != 0
    case 3 => w & 8 != 0
    case _ => w & 16 != 0
  }

  function WordBits5(w: bv5): symbol {
    [BitOf(w, 4), BitOf(w, 3), BitOf(w, 2), BitOf(w, 1), BitOf(w, 0)]
  }

  /** The i-th of the six 5-bit groups of a 30-bit word. */
  function Group(w: bv30, i: nat): bv5
    requires i < 6
  {
    match i
    case 0 => (w >> 25) as bv5
    case 1 => ((w >> 20) & 31) as bv5
    case 2 => ((w >> 15) & 31) as bv5
    case 3 => ((w >> 10) & 31) as bv5
    case 4 => ((w >> 5) & 31) as bv5
    case _ => (w & 31) as bv5
  }

  function Join(a: bits, b: bits, c: bits, d: bits, e: bits, f: bits): (r: bits)
    ensures |r| == |a| + |b| + |c| + |d| + |e| + |f|
  {
    a + b + c + d + e + f
  }

  function WordBits(w: bv30): state {
    Join(WordBits5(Group(w, 0)), WordBits5(Group(w, 1)), WordBits5(Group(w, 2)),
         WordBits5(Group(w, 3)), WordBits5(Group(w, 4)), WordBits5(Group(w, 5)))
  }

  function Gate(on: bool, g: bits): (r: bits)
    ensures |r| == |g|
  {
    if on then g else Zeros(|g|)
  }

  /** The sum of the words that the five top bits select. */
  function Select(top: symbol, k0: bv30, k1: bv30, k2: bv30, k3: bv30, k4: bv30): state {
    Xor(Xor(Xor(Xor(Gate(top[4], WordBits(k0)), Gate(top[3], WordBits(k1))),
                Gate(top[2], WordBits(k2))), Gate(top[1], WordBits(k3))), Gate(top[0], WordBits(k4)))
  }

  /** The multiple of the generator that cancels the five top bits. */
  function Generator(top: symbol): state {
    Select(top, 0x3b6a57b2, 0x26508e6d, 0x1ea119fa, 0x3d4233dd, 0x2a1462b3)
  }

  /** One step of the BIP-173 polymod: shift v in, reduce what is shifted out. */
  function Step(c: state, v: symbol): state {
    Xor(c[5..] + v, Generator(c[..5]))
  }

  function Polymod(c: state, syms: seq<symbol>): state
    decreases |syms|
  {
    if syms == [] then c else Polymod(Step(c, syms[0]), syms[1..])
  }

  lemma {:induction false} PolymodAppend(c: state, a: seq<symbol>, b: seq<symbol>)
    ensures Polymod(c, a + b) == Polymod(Polymod(c, a), b)
    decreases |a|
  {
    hide Step;
    if a == [] {
      assert a + b == b;
    } else {
      PolymodAppend(Step(c, a[0]), a[1..], b);
      assert (a + b)[1..] == a[1..] + b;
    }
  }

  /** A difference that does not reach the top five bits shifts through without being reduced. */
  lemma StepShifts(c: state, d: state, v: symbol)
    requires d[..5] == Zeros(5)
    ensures Step(Xor(c, d), v) == Xor(Step(c, Zeros(5)), d[5..] + v)
  {
    hide Generator;
    var top := Xor(c, d)[..5];
    assert top == c[..5] by {
      forall i | 0 <= i < 5 ensures top[i] == c[..5][i] {
        assert d[i] == d[..5][i];
      }
    }
    var g := Generator(c[..5]);
    assert Step(Xor(c, d), v) == Xor(Xor(c, d)[5..] + v, g);
    assert Step(c, Zeros(5)) == Xor(c[5..] + Zeros(5), g);
  }

  function ZeroSymbols(n: nat): (r: seq<symbol>)
    ensures |r| == n
  {
    if n == 0 then [] else [Zeros(5)] + ZeroSymbols(n - 1)
  }

  /** Up to six symbols at the low end of a state. */
  function Window(s: seq<symbol>): state
    requires |s| <= 6
  {
    Zeros(30 - 5 * |s|) + SymbolsToBits(s)
  }

  lemma {:induction false} SymbolsToBitsAppend(a: seq<symbol>, b: seq<symbol>)
    ensures SymbolsToBits(a + b) == SymbolsToBits(a) + SymbolsToBits(b)
  {
    if a == [] {
      assert a + b == b;
    } else {
      SymbolsToBitsAppend(a[1..], b);
      assert (a + b)[1..] == a[1..] + b;
      Associative(a[0], SymbolsToBits(a[1..]), SymbolsToBits(b));
    }
  }

  lemma WindowShifts(p: seq<symbol>, v: symbol)
    requires |p| < 6
    ensures Window(p)[..5] == Zeros(5)
    ensures Window(p + [v]) == Window(p)[5..] + v
  {
    SymbolsToBitsAppend(p, [v]);
    assert SymbolsToBits([v]) == v;
  }

  /** The last six symbols enter the checksum linearly. */
  lemma {:induction false} LastAreLinear(c: state, p: seq<symbol>, s: seq<symbol>)
    requires |p| + |s| == 6
    ensures Polymod(Xor(c, Window(p)), s) == Xor(Polymod(c, ZeroSymbols(|s|)), Window(p + s))
    decreases |s|
  {
    hide Step, Xor, Window;
    if s == [] {
      assert p + s == p;
    } else {
      var v := s[0];
      WindowShifts(p, v);
      StepShifts(c, Window(p), v);
      LastAreLinear(Step(c, Zeros(5)), p + [v], s[1..]);
      assert p + [v] + s[1..] == p + s;
    }
  }

  /** The prefix as symbols: high bits, a zero, low bits. */
  function ExpandHrp(hrp: bytes): seq<symbol> {
    HighBits(hrp) + [Zeros(5)] + LowBits(hrp)
  }

  function HighBits(s: bytes): seq<symbol> {
    if s == [] then [] else [NatBits(s[0] / 32, 5)] + HighBits(s[1..])
  }

  function LowBits(s: bytes): seq<symbol> {
    if s == [] then [] else [NatBits(s[0] % 32, 5)] + LowBits(s[1..])
  }

  const ONE: state := WordBits(1)

  /** What a prefix and symbols come to; BIP-173 wants ONE, its successor BIP-350 another constant. */
  function Register(hrp: bytes, syms: seq<symbol>): state {
    Polymod(ONE, ExpandHrp(hrp) + syms)
  }

  /** The six symbols that bring the register to a target. */
  function Checksum(target: state, hrp: bytes, data: seq<symbol>): (s: seq<symbol>)
    ensures |s| == 6
  {
    BitsToSymbols(Xor(Polymod(ONE, ExpandHrp(hrp) + data + ZeroSymbols(6)), target))
  }

  /** An appended checksum always verifies, and no other six symbols do. */
  lemma ChecksumExact(target: state, hrp: bytes, data: seq<symbol>, last: seq<symbol>)
    requires |last| == 6
    ensures Register(hrp, data + last) == target <==> last == Checksum(target, hrp, data)
  {
    hide Step, ExpandHrp, Polymod;
    var front := ExpandHrp(hrp) + data;
    var c := Polymod(ONE, front);
    var z := Polymod(c, ZeroSymbols(6));
    PolymodAppend(ONE, front, last);
    PolymodAppend(ONE, front, ZeroSymbols(6));
    assert ExpandHrp(hrp) + (data + last) == front + last;
    LastAreLinear(c, [], last);
    assert [] + last == last && Xor(c, Window([])) == c;
    assert Window(last) == SymbolsToBits(last);
    XorSolves(z, SymbolsToBits(last), target);
    SymbolsBitsSymbols(last);
    BitsSymbolsBits(Xor(z, target));
  }

  lemma XorSolves(z: bits, x: bits, y: bits)
    requires |z| == |x| == |y|
    ensures Xor(z, x) == y <==> x == Xor(z, y)
  {
    if Xor(z, x) == y {
      forall i | 0 <= i < |x| ensures x[i] == Xor(z, y)[i] {
        assert Xor(z, x)[i] == y[i];
      }
    }
    if x == Xor(z, y) {
      forall i | 0 <= i < |x| ensures Xor(z, x)[i] == y[i] {
      }
    }
  }

  // ----- Regrouping -----

  function ByteBits(b: byte): (r: bits)
    ensures |r| == 8
  {
    NatBits(b, 8)
  }

  function BitsByte(r: bits): (b: byte)
    requires |r| == 8
  {
    PowerValues();
    BitsNatInverse(r);
    BitsNat(r)
  }

  lemma ByteBitsInverse(b: byte)
    ensures BitsByte(ByteBits(b)) == b
  {
    PowerValues();
    NatBitsInverse(b, 8);
  }

  lemma BitsByteInverse(r: bits)
    requires |r| == 8
    ensures ByteBits(BitsByte(r)) == r
  {
    BitsNatInverse(r);
  }

  function BytesToBits(s: bytes): (r: bits)
    ensures |r| == 8 * |s|
  {
    if s == [] then [] else ByteBits(s[0]) + BytesToBits(s[1..])
  }

  function BitsToBytes(r: bits): (s: bytes)
    requires |r| % 8 == 0
    ensures 8 * |s| == |r|
  {
    if r == [] then [] else [BitsByte(r[..8])] + BitsToBytes(r[8..])
  }

  function SymbolsToBits(s: seq<symbol>): (r: bits)
    ensures |r| == 5 * |s|
  {
    if s == [] then [] else s[0] + SymbolsToBits(s[1..])
  }

  function BitsToSymbols(r: bits): (s: seq<symbol>)
    requires |r| % 5 == 0
    ensures 5 * |s| == |r|
  {
    if r == [] then [] else [r[..5]] + BitsToSymbols(r[5..])
  }

  lemma {:induction false} BytesBitsBytes(s: bytes)
    ensures BitsToBytes(BytesToBits(s)) == s
  {
    if s != [] {
      var r := BytesToBits(s);
      assert r[..8] == ByteBits(s[0]) && r[8..] == BytesToBits(s[1..]);
      ByteBitsInverse(s[0]);
      BytesBitsBytes(s[1..]);
    }
  }

  lemma {:induction false} BitsBytesBits(r: bits)
    requires |r| % 8 == 0
    ensures BytesToBits(BitsToBytes(r)) == r
  {
    if r != [] {
      BitsByteInverse(r[..8]);
      BitsBytesBits(r[8..]);
      assert BitsToBytes(r)[1..] == BitsToBytes(r[8..]);
      assert r == r[..8] + r[8..];
    }
  }

  lemma {:induction false} SymbolsBitsSymbols(s: seq<symbol>)
    ensures BitsToSymbols(SymbolsToBits(s)) == s
  {
    if s != [] {
      var r := SymbolsToBits(s);
      assert r[..5] == s[0] && r[5..] == SymbolsToBits(s[1..]);
      SymbolsBitsSymbols(s[1..]);
    }
  }

  lemma {:induction false} BitsSymbolsBits(r: bits)
    requires |r| % 5 == 0
    ensures SymbolsToBits(BitsToSymbols(r)) == r
  {
    if r != [] {
      BitsSymbolsBits(r[5..]);
      assert BitsToSymbols(r)[1..] == BitsToSymbols(r[5..]);
      assert r == r[..5] + r[5..];
    }
  }

  /** Zero bits needed to fill the last 5-bit group. */
  function Padding(n: nat): nat { (5 - n % 5) % 5 }

  lemma PaddingFits(n: nat)
    ensures Padding(n) < 5 && (n + Padding(n)) % 5 == 0
  {
  }

  function ToSymbols(raw: bytes): seq<symbol> {
    var all := BytesToBits(raw);
    PaddingFits(|all|);
    BitsToSymbols(all + Zeros(Padding(|all|)))
  }

  /** The length of the whole bytes in n bits. */
  function WholeBits(n: nat): (w: nat)
    ensures w <= n < w + 8 && w % 8 == 0
  {
    8 * (n / 8)
  }

  /** Left-over bits must be fewer than five and all zero. */
  function ToBytes(syms: seq<symbol>): Option<bytes> {
    var all := SymbolsToBits(syms);
    var whole := WholeBits(|all|);
    var left := all[whole..];
    if |left| > 4 || true in left then None else Some(BitsToBytes(all[..whole]))
  }

  /** Regrouping accepts exactly the zero-padded groups of a byte string. */
  lemma RegroupExact(syms: seq<symbol>, raw: bytes)
    ensures ToBytes(syms) == Some(raw) <==> syms == ToSymbols(raw)
  {
    if ToBytes(syms) == Some(raw) {
      RegroupReads(syms, raw);
    }
    if syms == ToSymbols(raw) {
      RegroupWrites(raw);
    }
  }

  lemma WholeBytes(n: nat, k: nat)
    requires k < 8
    ensures WholeBits(8 * n + k) == 8 * n
  {
  }

  lemma RegroupWrites(raw: bytes)
    ensures ToBytes(ToSymbols(raw)) == Some(raw)
  {
    hide SymbolsToBits, BitsToSymbols, BitsToBytes, BytesToBits, Padding;
    var all := BytesToBits(raw);
    PaddingFits(|all|);
    var pad := Zeros(Padding(|all|));
    BitsSymbolsBits(all + pad);
    WholeBytes(|raw|, |pad|);
    assert (all + pad)[..|all|] == all && (all + pad)[|all|..] == pad;
    BytesBitsBytes(raw);
  }

  lemma PaddingFills(n: nat, k: nat, groups: nat)
    requires k < 5 && n + k == 5 * groups
    ensures Padding(n) == k
  {
  }

  lemma NoTrueIsZeros(r: bits)
    requires true !in r
    ensures r == Zeros(|r|)
  {
    forall i | 0 <= i < |r| ensures r[i] == Zeros(|r|)[i] {
      assert r[i] in r;
    }
  }

  lemma RegroupReads(syms: seq<symbol>, raw: bytes)
    requires ToBytes(syms) == Some(raw)
    ensures syms == ToSymbols(raw)
  {
    hide SymbolsToBits, BitsToSymbols, BitsToBytes, BytesToBits, Padding, Zeros, WholeBits;
    var all := SymbolsToBits(syms);
    var whole := WholeBits(|all|);
    var front, left := all[..whole], all[whole..];
    BitsBytesBits(front);
    assert BytesToBits(raw) == front;
    PaddingFills(whole, |left|, |syms|);
    NoTrueIsZeros(left);
    assert all == front + left;
    SymbolsBitsSymbols(syms);
  }

  // ----- Whole strings -----

  predicate Printable(s: bytes) {
    forall i :: 0 <= i < |s| ==> 33 <= s[i] <= 126
  }

  predicate IsUpper(c: byte) { 'A' as int <= c <= 'Z' as int }

  predicate IsLower(c: byte) { 'a' as int <= c <= 'z' as int }

  predicate MixedCase(s: bytes) {
    (exists i :: 0 <= i < |s| && IsUpper(s[i])) && (exists i :: 0 <= i < |s| && IsLower(s[i]))
  }

  /** The position of the last separator, or -1. */
  function LastSeparator(s: bytes): (r: int)
    ensures -1 <= r < |s|
    ensures r >= 0 ==> s[r] == SEPARATOR
    ensures forall i :: r < i < |s| ==> s[i] != SEPARATOR
  {
    if s == [] then -1
    else if s[|s| - 1] == SEPARATOR then |s| - 1
    else LastSeparator(s[..|s| - 1])
  }

  /** Prefix and symbols of a lower-case string, checksum checked and removed. */
  function DecodeLower(targets: set<state>, s: bytes): Option<(bytes, seq<symbol>)> {
    var one := LastSeparator(s);
    if one < 1 || one + 7 > |s| then None else
    match Symbols(s[one + 1..])
    case None => None
    case Some(syms) =>
      if Register(s[..one], syms) !in targets then None
      else Some((s[..one], syms[..|syms| - 6]))
  }

  /** Prefix (in lower case) and payload bytes of a bech32 string under the accepted constants. */
  function Decode(targets: set<state>, s: bytes): Option<(bytes, bytes)> {
    if |s| < 8 || !Printable(s) || MixedCase(s) then None else
    match DecodeLower(targets, Lower(s))
    case None => None
    case Some((hrp, syms)) =>
      match ToBytes(syms)
      case None => None
      case Some(raw) => Some((hrp, raw))
  }

  lemma EncodeStarts(target: state, hrp: bytes, raw: bytes)
    ensures |Encode(target, hrp, raw)| > |hrp| && Encode(target, hrp, raw)[..|hrp|] == hrp
    ensures forall k :: 0 <= k < |hrp| ==> Encode(target, hrp, raw)[k] == hrp[k]
  {
    hide Chars, Checksum, ToSymbols;
  }

  lemma EmptyFails(targets: set<state>)
    ensures Decode(targets, []) == None
  {
  }

  predicate ValidHrp(hrp: bytes) {
    |hrp| >= 1 && Printable(hrp) && Lower(hrp) == hrp
  }

  function Encode(target: state, hrp: bytes, raw: bytes): bytes {
    Spell(target, hrp, ToSymbols(raw))
  }

  function Spell(target: state, hrp: bytes, data: seq<symbol>): bytes {
    hrp + [SEPARATOR] + Chars(data + Checksum(target, hrp, data))
  }

  lemma SeparatorAt(s: bytes, hrp: bytes, tail: bytes)
    requires s == hrp + [SEPARATOR] + tail && SEPARATOR !in tail
    ensures LastSeparator(s) == |hrp|
  {
    hide LastSeparator;
    assert s[|hrp|] == SEPARATOR;
    forall i | |hrp| < i < |s| ensures s[i] != SEPARATOR {
      assert s[i] == tail[i - |hrp| - 1];
    }
  }

  lemma CharsAreData(syms: seq<symbol>)
    ensures SEPARATOR !in Chars(syms) && Printable(Chars(syms)) && Lower(Chars(syms)) == Chars(syms)
  {
  }

  lemma DecodeLowerReads(targets: set<state>, s: bytes, hrp: bytes, data: seq<symbol>) returns (t: state)
    requires DecodeLower(targets, s) == Some((hrp, data))
    ensures |hrp| >= 1 && t in targets && s == Spell(t, hrp, data)
  {
    hide Register, Checksum, Symbols, Chars;
    var one := LastSeparator(s);
    var syms := Symbols(s[one + 1..]).value;
    var last := syms[|syms| - 6..];
    t := Register(hrp, syms);
    SymbolsExact(s[one + 1..], syms);
    assert syms == data + last;
    ChecksumExact(t, hrp, data, last);
    SplitAt(s, one);
  }

  lemma SplitAt(s: bytes, k: nat)
    requires k < |s|
    ensures s == s[..k] + [s[k]] + s[k + 1..]
  {
  }

  lemma DecodeLowerWritten(targets: set<state>, t: state, hrp: bytes, data: seq<symbol>)
    requires |hrp| >= 1 && t in targets
    ensures DecodeLower(targets, Spell(t, hrp, data)) == Some((hrp, data))
  {
    hide Register, Checksum, Symbols, Chars, LastSeparator;
    var syms := data + Checksum(t, hrp, data);
    var s := Spell(t, hrp, data);
    CharsAreData(syms);
    SeparatorAt(s, hrp, Chars(syms));
    assert s[..|hrp|] == hrp && s[|hrp| + 1..] == Chars(syms);
    SymbolsExact(Chars(syms), syms);
    ChecksumExact(t, hrp, data, Checksum(t, hrp, data));
    assert syms[..|syms| - 6] == data;
  }

  /** A lower-case string is a spelling of a prefix and payload under some accepted constant. */
  ghost predicate Spells(targets: set<state>, low: bytes, hrp: bytes, raw: bytes) {
    exists t :: t in targets && low == Encode(t, hrp, raw)
  }

  /**
   * The accepted language, whatever the accepted constants are: a prefix and a payload are read
   * from exactly their encodings under those constants, in one letter case.
   */
  lemma DecodeExact(targets: set<state>, s: bytes, hrp: bytes, raw: bytes)
    ensures Decode(targets, s) == Some((hrp, raw)) <==>
            ValidHrp(hrp) && Spells(targets, Lower(s), hrp, raw) && !MixedCase(s)
  {
    hide DecodeLower, ToBytes, ToSymbols, Spell;
    if Decode(targets, s) == Some((hrp, raw)) {
      var data := DecodeLower(targets, Lower(s)).value.1;
      RegroupExact(data, raw);
      var t := DecodeLowerReads(targets, Lower(s), hrp, data);
      assert Lower(s) == Encode(t, hrp, raw);
      HrpOfSpelling(t, s, hrp, data);
    }
    if ValidHrp(hrp) && Spells(targets, Lower(s), hrp, raw) && !MixedCase(s) {
      var t :| t in targets && Lower(s) == Encode(t, hrp, raw);
      RegroupExact(ToSymbols(raw), raw);
      DecodeLowerWritten(targets, t, hrp, ToSymbols(raw));
      PrintableSpelling(t, s, hrp, ToSymbols(raw));
    }
  }

  lemma HrpOfSpelling(t: state, s: bytes, hrp: bytes, data: seq<symbol>)
    requires Printable(s) && Lower(s) == Spell(t, hrp, data) && |hrp| >= 1
    ensures ValidHrp(hrp)
  {
    hide Checksum, Chars;
    HrpOfLower(s, hrp, Chars(data + Checksum(t, hrp, data)));
  }

  lemma PrintableSpelling(t: state, s: bytes, hrp: bytes, data: seq<symbol>)
    requires ValidHrp(hrp) && Lower(s) == Spell(t, hrp, data)
    ensures Printable(s) && |s| >= 8
  {
    hide Checksum, Chars;
    var syms := data + Checksum(t, hrp, data);
    CharsAreData(syms);
    PrintableLower(s, hrp, Chars(syms));
  }

  lemma HrpOfLower(s: bytes, hrp: bytes, tail: bytes)
    requires Printable(s) && Lower(s) == hrp + [SEPARATOR] + tail && |hrp| >= 1
    ensures ValidHrp(hrp)
  {
    forall i | 0 <= i < |hrp| ensures 33 <= hrp[i] <= 126 && LowerByte(hrp[i]) == hrp[i] {
      assert hrp[i] == Lower(s)[i] == LowerByte(s[i]);
    }
    assert Lower(hrp) == hrp;
  }

  lemma PrintableLower(s: bytes, hrp: bytes, tail: bytes)
    requires Printable(hrp) && Printable(tail) && Lower(s) == hrp + [SEPARATOR] + tail
    ensures Printable(s)
  {
    forall i | 0 <= i < |s| ensures 33 <= s[i] <= 126 {
      var low := Lower(s);
      assert low[i] == LowerByte(s[i]);
      if i < |hrp| {
        assert low[i] == hrp[i];
      } else if i > |hrp| {
        assert low[i] == tail[i - |hrp| - 1];
      }
    }
  }

  lemma LowerAppend(a: bytes, b: bytes)
    ensures Lower(a + b) == Lower(a) + Lower(b)
  {
  }

  lemma EncodeIsLower(target: state, hrp: bytes, raw: bytes)
    requires ValidHrp(hrp)
    ensures Lower(Encode(target, hrp, raw)) == Encode(target, hrp, raw) && !MixedCase(Encode(target, hrp, raw))
  {
    hide Checksum, ToSymbols, Chars, Lower;
    var data := ToSymbols(raw);
    var syms := data + Checksum(target, hrp, data);
    CharsAreData(syms);
    LowerAppend(hrp + [SEPARATOR], Chars(syms));
    LowerAppend(hrp, [SEPARATOR]);
    assert Lower([SEPARATOR]) == [SEPARATOR];
    LowerIsNotUpper(Encode(target, hrp, raw));
  }

  lemma LowerIsNotUpper(s: bytes)
    requires Lower(s) == s
    ensures !MixedCase(s)
  {
    forall i | 0 <= i < |s| ensures !IsUpper(s[i]) {
      assert Lower(s)[i] == s[i];
    }
  }

  lemma RoundTrip(targets: set<state>, target: state, hrp: bytes, raw: bytes)
    requires ValidHrp(hrp) && target in targets
    ensures Decode(targets, Encode(target, hrp, raw)) == Some((hrp, raw))
  {
    EncodeIsLower(target, hrp, raw);
    DecodeExact(targets, Encode(target, hrp, raw), hrp, raw);
  }

  /** Two spellings of one prefix and payload differ at most in the six checksum characters. */
  lemma SpellingsShareData(t: state, t': state, hrp: bytes, raw: bytes)
    ensures var s, s' := Encode(t, hrp, raw), Encode(t', hrp, raw);
            |s| == |s'| && s[..|s| - 6] == s'[..|s'| - 6] && (s == s' <==> t == t')
  {
    hide Chars, CharOf, Register, Checksum, ToSymbols;
    var data := ToSymbols(raw);
    var a, b := Checksum(t, hrp, data), Checksum(t', hrp, data);
    CharsAppend(data, a);
    CharsAppend(data, b);
    var front := hrp + [SEPARATOR] + Chars(data);
    assert Encode(t, hrp, raw) == front + Chars(a) && Encode(t', hrp, raw) == front + Chars(b);
    if Encode(t, hrp, raw) == Encode(t', hrp, raw) {
      assert Chars(a) == (front + Chars(a))[|front|..] == Chars(b);
      SymbolsExact(Chars(a), a);
      SymbolsExact(Chars(b), b);
      ChecksumExact(t, hrp, data, a);
      ChecksumExact(t', hrp, data, b);
    }
  }
}
