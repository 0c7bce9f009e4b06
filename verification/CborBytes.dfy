/**
 * The bytes of every item in numbers, as RFC 8949, section 3, gives them: a second writer that
 * shares nothing with module Cbor, and the proof that the two agree.
 */
module CborBytes {
  import opened Bytes
  import opened Cbor

  /** One byte of n: the one that counts d's. */
  function Octet(n: nat, d: nat): byte
    requires d > 0
  {
    n / d % 0x100
  }

  /** A head in numbers: the argument follows 24, 25, 26 and 27 in 1, 2, 4 and 8 bytes, big end first. */
  function WireHead(m: nat, w: Width, n: nat): seq<int> {
    match w
    case Inline => [32 * m + n]
    case One => [32 * m + 24, Octet(n, 1)]
    case Two => [32 * m + 25, Octet(n, 0x100), Octet(n, 1)]
    case Four => [32 * m + 26, Octet(n, 0x100_0000), Octet(n, 0x1_0000), Octet(n, 0x100), Octet(n, 1)]
    case Eight =>
      [32 * m + 27, Octet(n, 0x100_0000_0000_0000), Octet(n, 0x1_0000_0000_0000), Octet(n, 0x100_0000_0000),
       Octet(n, 0x1_0000_0000), Octet(n, 0x100_0000), Octet(n, 0x1_0000), Octet(n, 0x100), Octet(n, 1)]
  }

  lemma ByteRanges(w: Width, n: nat)
    ensures Fits(w, n) <==> match w
                            case Inline => n < 24
                            case One => n < 0x100
                            case Two => n < 0x1_0000
                            case Four => n < 0x1_0000_0000
                            case Eight => n < 0x1_0000_0000_0000_0000
  {
    LimitValues();
  }

  /** The two low bytes come last. */
  lemma LowBytes(n: nat, k: nat)
    ensures BigEndian(n, k + 2) == BigEndian(n / 0x1_0000, k) + [Octet(n, 0x100), Octet(n, 1)]
  {
    assert n / 0x100 / 0x100 == n / 0x1_0000;
    assert BigEndian(n / 0x100, k + 1) == BigEndian(n / 0x1_0000, k) + [n / 0x100 % 0x100];
  }

  lemma OctetOfQuotient(n: nat)
    ensures Octet(n / 0x1_0000, 1) == Octet(n, 0x1_0000) && Octet(n / 0x1_0000, 0x100) == Octet(n, 0x100_0000)
    ensures Octet(n / 0x1_0000_0000, 1) == Octet(n, 0x1_0000_0000)
    ensures Octet(n / 0x1_0000_0000, 0x100) == Octet(n, 0x100_0000_0000)
    ensures Octet(n / 0x1_0000_0000, 0x1_0000) == Octet(n, 0x1_0000_0000_0000)
    ensures Octet(n / 0x1_0000_0000, 0x100_0000) == Octet(n, 0x100_0000_0000_0000)
    ensures n / 0x1_0000 / 0x1_0000 == n / 0x1_0000_0000
  {
    var h := n / 0x1_0000_0000;
    assert n / 0x1_0000 / 0x100 == n / 0x100_0000;
    assert h / 0x100_0000 == n / 0x100_0000_0000_0000 && h / 0x1_0000 == n / 0x1_0000_0000_0000;
    assert h / 0x100 == n / 0x100_0000_0000;
  }

  lemma FewBytes(n: nat)
    ensures BigEndian(n, 0) == [] && BigEndian(n, 1) == [Octet(n, 1)]
    ensures BigEndian(n, 2) == [Octet(n, 0x100), Octet(n, 1)]
  {
    assert BigEndian(n / 0x100, 0) == [] && BigEndian(n / 0x1_0000, 0) == [];
    LowBytes(n, 0);
  }

  lemma FourBytes(n: nat)
    ensures BigEndian(n, 4) == [Octet(n, 0x100_0000), Octet(n, 0x1_0000), Octet(n, 0x100), Octet(n, 1)]
  {
    hide BigEndian, Octet;
    LowBytes(n, 2);
    FewBytes(n / 0x1_0000);
    OctetOfQuotient(n);
  }

  lemma EightBytes(n: nat)
    ensures BigEndian(n, 8) ==
            [Octet(n, 0x100_0000_0000_0000), Octet(n, 0x1_0000_0000_0000), Octet(n, 0x100_0000_0000),
             Octet(n, 0x1_0000_0000), Octet(n, 0x100_0000), Octet(n, 0x1_0000), Octet(n, 0x100), Octet(n, 1)]
  {
    hide BigEndian, Octet;
    LowBytes(n, 6);
    LowBytes(n / 0x1_0000, 4);
    FourBytes(n / 0x1_0000_0000);
    OctetOfQuotient(n);
  }

  /** Every head, in numbers. */
  lemma HeadBytes(m: nat, w: Width, n: nat)
    requires m < 8 && Fits(w, n)
    ensures Head(m, w, n) == WireHead(m, w, n)
  {
    hide BigEndian, Octet;
    FewBytes(n);
    FourBytes(n);
    EightBytes(n);
  }

  /** Every item, in numbers. */
  function Wire(i: Item): seq<int> {
    match i
    case UInt(w, n) => WireHead(0, w, n)
    case NInt(w, n) => WireHead(1, w, n)
    case BStr(w, s) => WireHead(2, w, |s|) + s
    case TStr(w, s) => WireHead(3, w, |s|) + s
    case Arr(w, items) => WireHead(4, w, |items|) + WireAll(items)
    case Map(w, entries) => WireHead(5, w, |entries| / 2) + WireAll(entries)
    case Bool(false) => [0xf4]
    case Bool(true) => [0xf5]
    case Null => [0xf6]
  }

  function WireAll(items: seq<Item>): seq<int> {
    if items == [] then [] else Wire(items[0]) + WireAll(items[1..])
  }

  lemma {:induction false} ItemBytes(i: Item)
    requires Valid(i)
    ensures Encode(i) == Wire(i)
    decreases i, 1
  {
    HeadBytes(Major(i), HeadWidth(i), Arg(i));
    if i.Arr? {
      ItemsBytes(i.items);
    } else if i.Map? {
      ItemsBytes(i.entries);
    }
  }

  lemma {:induction false} ItemsBytes(items: seq<Item>)
    requires ValidAll(items)
    ensures EncodeAll(items) == WireAll(items)
    decreases items, 0
  {
    hide Encode;
    if items != [] {
      ItemBytes(items[0]);
      ItemsBytes(items[1..]);
    }
  }

  /** Reading in numbers: exactly the bytes of a valid item are read as it. */
  lemma ReadInNumbers(bs: bytes, i: Item, rest: bytes)
    ensures ReadItem(bs) == ItemRead(i, rest) <==> Valid(i) && bs == Wire(i) + rest
  {
    if ReadItem(bs) == ItemRead(i, rest) {
      ReadExact(bs);
      ItemBytes(i);
    }
    if Valid(i) && bs == Wire(i) + rest {
      ItemBytes(i);
      ReadWritten(i, rest);
    }
  }

  /** Items under a head of one byte. */
  lemma InlineBytes(n: nat, s: bytes, items: seq<Item>)
    ensures Wire(UInt(Inline, n)) == [n] && Wire(NInt(Inline, n)) == [0x20 + n]
    ensures Wire(BStr(Inline, s)) == [0x40 + |s|] + s && Wire(TStr(Inline, s)) == [0x60 + |s|] + s
    ensures Wire(Arr(Inline, items)) == [0x80 + |items|] + WireAll(items)
    ensures Wire(Map(Inline, items)) == [0xa0 + |items| / 2] + WireAll(items)
  {
  }

  lemma OneByteBytes(s: bytes)
    requires |s| < 0x100
    ensures Wire(BStr(One, s)) == [0x58, |s|] + s
  {
  }

  lemma {:induction false} WireAppend(a: seq<Item>, b: seq<Item>)
    ensures WireAll(a + b) == WireAll(a) + WireAll(b)
  {
    hide Wire;
    if a == [] {
      assert a + b == b;
    } else {
      WireAppend(a[1..], b);
      assert (a + b)[1..] == a[1..] + b;
      Associative(Wire(a[0]), WireAll(a[1..]), WireAll(b));
    }
  }

  lemma WireTwo(a: Item, b: Item)
    ensures WireAll([a, b]) == Wire(a) + Wire(b)
  {
    hide Wire;
    assert [a, b][1..] == [b] && [b][1..] == [];
    assert WireAll([b]) == Wire(b);
  }

  lemma WireFour(a: Item, b: Item, c: Item, d: Item)
    ensures WireAll([a, b, c, d]) == Wire(a) + Wire(b) + Wire(c) + Wire(d)
  {
    hide Wire;
    WireTwo(a, b);
    WireTwo(c, d);
    WireAppend([a, b], [c, d]);
    assert [a, b, c, d] == [a, b] + [c, d];
  }

  lemma FourFit(e: seq<Item>)
    requires |e| == 4 && ValidAll(e)
    ensures Valid(Arr(Inline, e))
  {
  }

  /** Four elements of an array, each with its bytes. */
  lemma ArrayBytes(a: Item, b: Item, c: Item, d: Item)
    requires Valid(a) && Valid(b) && Valid(c) && Valid(d) && Valid(Arr(Inline, [a, b, c, d]))
    ensures Encode(Arr(Inline, [a, b, c, d])) == [0x84] + Encode(a) + Encode(b) + Encode(c) + Encode(d)
  {
    hide Wire, WireAll, Encode, Valid;
    ItemBytes(a);
    ItemBytes(b);
    ItemBytes(c);
    ItemBytes(d);
    ItemBytes(Arr(Inline, [a, b, c, d]));
    WireFour(a, b, c, d);
    InlineBytes(0, [], [a, b, c, d]);
  }

  /** The width chosen for lengths is the narrowest that fits. */
  lemma ShortestIsNarrowest(n: nat, w: Width)
    requires Fits(w, n)
    ensures Shortest(n).Some? && Fits(Shortest(n).value, n) && Extra(Shortest(n).value) <= Extra(w)
  {
    ByteRanges(w, n);
  }

  /** A byte string in numbers, under the head its length calls for. */
  function WireBytes(s: bytes): bytes {
    var n := |s|;
    if n < 24 then [0x40 + n] + s
    else if n < 0x100 then [0x58, n] + s
    else if n < 0x1_0000 then [0x59, Octet(n, 0x100), Octet(n, 1)] + s
    else if n < 0x1_0000_0000 then
      [0x5a, Octet(n, 0x100_0000), Octet(n, 0x1_0000), Octet(n, 0x100), Octet(n, 1)] + s
    else
      [0x5b, Octet(n, 0x100_0000_0000_0000), Octet(n, 0x1_0000_0000_0000), Octet(n, 0x100_0000_0000),
       Octet(n, 0x1_0000_0000), Octet(n, 0x100_0000), Octet(n, 0x1_0000), Octet(n, 0x100), Octet(n, 1)] + s
  }

  lemma WireBytesAre(s: bytes)
    requires |s| < 0x1_0000_0000_0000_0000
    ensures Shortest(|s|).Some? && Valid(BStr(Shortest(|s|).value, s))
    ensures Encode(BStr(Shortest(|s|).value, s)) == WireBytes(s)
  {
    ItemBytes(BStr(Shortest(|s|).value, s));
  }
}
