/**
 * A CBOR reader and writer after RFC 8949, sections 3 and 4.2, for the fragment COSE uses:
 * definite lengths, integers, byte and text strings, arrays, maps, true, false and null.
 *
 * An Item is a concrete syntax tree: every head keeps the width it has on the wire, so that
 * reading and writing are exact inverses (`ReadExact`). What a program sees of an item is its
 * Value, which no longer knows the widths.
 */
module Cbor {
  import opened Bytes

  // ----- Heads (RFC 8949, section 3) -----

  /** Where the argument of a head is held: in the initial byte, or in 1, 2, 4 or 8 more. */
  datatype Width = Inline | One | Two | Four | Eight

  function Extra(w: Width): nat {
    match w
    case Inline => 0
    case One => 1
    case Two => 2
    case Four => 4
    case Eight => 8
  }

  predicate Fits(w: Width, n: nat) {
    if w == Inline then n < 24 else n < Limit(Extra(w))
  }

  function Info(w: Width, n: nat): (r: nat)
    requires Fits(w, n)
    ensures r < 28
  {
    match w
    case Inline => n
    case One => 24
    case Two => 25
    case Four => 26
    case Eight => 27
  }

  function Head(major: nat, w: Width, n: nat): (r: bytes)
    requires major < 8 && Fits(w, n)
    ensures |r| == 1 + Extra(w)
  {
    [major * 32 + Info(w, n)] + BigEndian(n, Extra(w))
  }

  /** The narrowest width that holds n, if there is one. */
  function Shortest(n: nat): (w: Option<Width>)
    ensures w.Some? ==> Fits(w.value, n)
    ensures w.None? <==> n >= 0x1_0000_0000_0000_0000
  {
    LimitValues();
    if n < 24 then Some(Inline)
    else if n < 0x100 then Some(One)
    else if n < 0x1_0000 then Some(Two)
    else if n < 0x1_0000_0000 then Some(Four)
    else if n < 0x1_0000_0000_0000_0000 then Some(Eight)
    else None
  }

  datatype HeadRead = NoHead | HeadRead(major: nat, w: Width, n: nat, rest: bytes)

  function WidthOf(info: nat): Option<Width> {
    if info < 24 then Some(Inline)
    else if info == 24 then Some(One)
    else if info == 25 then Some(Two)
    else if info == 26 then Some(Four)
    else if info == 27 then Some(Eight)
    else None
  }

  function ReadHead(bs: bytes): (r: HeadRead)
    ensures r.HeadRead? ==> r.major < 8 && Fits(r.w, r.n) && |r.rest| < |bs|
  {
    if bs == [] then NoHead else
    var info := bs[0] % 32;
    match WidthOf(info)
    case None => NoHead
    case Some(w) =>
      if |bs| < 1 + Extra(w) then NoHead else
      var arg := bs[1..1 + Extra(w)];
      FromBigEndianRoundTrip(arg);
      var n := if w == Inline then info else FromBigEndian(arg);
      HeadRead(bs[0] / 32, w, n, bs[1 + Extra(w)..])
  }

  lemma ReadHeadWritten(major: nat, w: Width, n: nat, rest: bytes)
    requires major < 8 && Fits(w, n)
    ensures ReadHead(Head(major, w, n) + rest) == HeadRead(major, w, n, rest)
  {
    var bs := Head(major, w, n) + rest;
    assert bs[0] == major * 32 + Info(w, n);
    assert bs[0] % 32 == Info(w, n) && bs[0] / 32 == major;
    assert bs[1..1 + Extra(w)] == BigEndian(n, Extra(w));
    if w != Inline {
      BigEndianRoundTrip(n, Extra(w));
    }
  }

  lemma ReadHeadExact(bs: bytes)
    requires ReadHead(bs).HeadRead?
    ensures var h := ReadHead(bs); bs == Head(h.major, h.w, h.n) + h.rest
  {
    var h := ReadHead(bs);
    var e := Extra(h.w);
    assert bs[0] == h.major * 32 + Info(h.w, h.n);
    assert bs[1..1 + e] == BigEndian(h.n, e) by {
      FromBigEndianRoundTrip(bs[1..1 + e]);
    }
    SplitAfterHead(bs, e);
  }

  lemma SplitAfterHead(bs: bytes, e: nat)
    requires |bs| >= 1 + e
    ensures bs == [bs[0]] + bs[1..1 + e] + bs[1 + e..]
  {
  }

  // ----- Items -----

  /** The entries of a Map are flat: key, value, key, value. */
  datatype Item =
    | UInt(w: Width, n: nat)
    | NInt(w: Width, n: nat)
    | BStr(w: Width, bstr: bytes)
    | TStr(w: Width, tstr: bytes)
    | Arr(w: Width, items: seq<Item>)
    | Map(w: Width, entries: seq<Item>)
    | Bool(b: bool)
    | Null

  function Major(i: Item): (m: nat)
    ensures m < 8
  {
    match i
    case UInt(_, _) => 0
    case NInt(_, _) => 1
    case BStr(_, _) => 2
    case TStr(_, _) => 3
    case Arr(_, _) => 4
    case Map(_, _) => 5
    case Bool(_) => 7
    case Null => 7
  }

  function HeadWidth(i: Item): Width {
    if i.Bool? || i.Null? then Inline else i.w
  }

  /** The argument of an item's head. */
  function Arg(i: Item): nat {
    match i
    case UInt(_, n) => n
    case NInt(_, n) => n
    case BStr(_, s) => |s|
    case TStr(_, s) => |s|
    case Arr(_, items) => |items|
    case Map(_, entries) => |entries| / 2
    case Bool(b) => if b then 21 else 20
    case Null => 22
  }

  predicate Valid(i: Item) {
    && Fits(HeadWidth(i), Arg(i))
    && (i.Arr? ==> ValidAll(i.items))
    && (i.Map? ==> |i.entries| % 2 == 0 && ValidAll(i.entries))
  }

  predicate ValidAll(items: seq<Item>) {
    items == [] || (Valid(items[0]) && ValidAll(items[1..]))
  }

  /** The bytes a string item has after its head. */
  function Chars(i: Item): bytes {
    if i.BStr? then i.bstr else if i.TStr? then i.tstr else []
  }

  function Encode(i: Item): bytes
    requires Valid(i)
    decreases i, 1
  {
    Head(Major(i), HeadWidth(i), Arg(i)) + Body(i)
  }

  function Body(i: Item): bytes
    requires Valid(i)
    decreases i, 0
  {
    if i.Arr? then EncodeAll(i.items) else if i.Map? then EncodeAll(i.entries) else Chars(i)
  }

  function EncodeAll(items: seq<Item>): bytes
    requires ValidAll(items)
  {
    if items == [] then [] else Encode(items[0]) + EncodeAll(items[1..])
  }

  datatype ItemRead = NoItem | ItemRead(item: Item, rest: bytes)
  datatype ItemsRead = NoItems | ItemsRead(items: seq<Item>, rest: bytes)

  /** An item that holds no other items, once its head is known. */
  function ReadLeaf(h: HeadRead): (r: ItemRead)
    requires h.HeadRead?
    ensures r.ItemRead? ==> |r.rest| <= |h.rest|
  {
    if h.major == 0 then ItemRead(UInt(h.w, h.n), h.rest)
    else if h.major == 1 then ItemRead(NInt(h.w, h.n), h.rest)
    else if h.major == 2 && h.n <= |h.rest| then ItemRead(BStr(h.w, h.rest[..h.n]), h.rest[h.n..])
    else if h.major == 3 && h.n <= |h.rest| then ItemRead(TStr(h.w, h.rest[..h.n]), h.rest[h.n..])
    else if h.major == 7 && h.w == Inline && h.n == 20 then ItemRead(Bool(false), h.rest)
    else if h.major == 7 && h.w == Inline && h.n == 21 then ItemRead(Bool(true), h.rest)
    else if h.major == 7 && h.w == Inline && h.n == 22 then ItemRead(Null, h.rest)
    else NoItem
  }

  /** Reads one item off the front; `rest` is what follows it. */
  function ReadItem(bs: bytes): (r: ItemRead)
    ensures r.ItemRead? ==> |r.rest| < |bs|
    decreases |bs|, 0
  {
    var h := ReadHead(bs);
    if h.NoHead? then NoItem
    else if h.major == 4 then
      match ReadItems(h.n, h.rest)
      case NoItems => NoItem
      case ItemsRead(items, rest) => ItemRead(Arr(h.w, items), rest)
    else if h.major == 5 then
      match ReadItems(2 * h.n, h.rest)
      case NoItems => NoItem
      case ItemsRead(entries, rest) => ItemRead(Map(h.w, entries), rest)
    else ReadLeaf(h)
  }

  function ReadItems(count: nat, bs: bytes): (r: ItemsRead)
    ensures r.ItemsRead? ==> |r.items| == count && |r.rest| <= |bs|
    decreases |bs|, 1
  {
    if count == 0 then ItemsRead([], bs) else
    match ReadItem(bs)
    case NoItem => NoItems
    case ItemRead(item, rest) =>
      match ReadItems(count - 1, rest)
      case NoItems => NoItems
      case ItemsRead(items, rest') => ItemsRead([item] + items, rest')
  }

  lemma ReadLeafWritten(i: Item, rest: bytes)
    requires Valid(i) && !i.Arr? && !i.Map?
    ensures ReadLeaf(HeadRead(Major(i), HeadWidth(i), Arg(i), Chars(i) + rest)) == ItemRead(i, rest)
  {
    var s := Chars(i) + rest;
    assert s[..|Chars(i)|] == Chars(i) && s[|Chars(i)|..] == rest;
  }

  lemma ReadLeafExact(h: HeadRead)
    requires h.HeadRead? && h.major < 8 && Fits(h.w, h.n) && ReadLeaf(h).ItemRead?
    ensures var r := ReadLeaf(h);
            && Valid(r.item) && !r.item.Arr? && !r.item.Map?
            && h == HeadRead(Major(r.item), HeadWidth(r.item), Arg(r.item), Chars(r.item) + r.rest)
  {
  }

  lemma ReadItemsStep(count: nat, bs: bytes, item: Item, mid: bytes, items: seq<Item>, rest: bytes)
    requires count > 0
    requires ReadItem(bs) == ItemRead(item, mid)
    requires ReadItems(count - 1, mid) == ItemsRead(items, rest)
    ensures ReadItems(count, bs) == ItemsRead([item] + items, rest)
  {
  }

  /** The reader undoes the writer, for every choice of head widths. */
  lemma {:induction false} ReadWritten(i: Item, rest: bytes)
    requires Valid(i)
    ensures ReadItem(Encode(i) + rest) == ItemRead(i, rest)
    decreases i, 1
  {
    hide Head, ReadHead, ReadItems, ReadLeaf;
    var head := Head(Major(i), HeadWidth(i), Arg(i));
    Associative(head, Body(i), rest);
    ReadHeadWritten(Major(i), HeadWidth(i), Arg(i), Body(i) + rest);
    if i.Arr? {
      ReadAllWritten(i.items, rest);
    } else if i.Map? {
      ReadAllWritten(i.entries, rest);
    } else {
      ReadLeafWritten(i, rest);
    }
  }

  lemma {:induction false} ReadAllWritten(items: seq<Item>, rest: bytes)
    requires ValidAll(items)
    ensures ReadItems(|items|, EncodeAll(items) + rest) == ItemsRead(items, rest)
    decreases items, 0
  {
    hide ReadItem, Encode;
    if items == [] {
      assert EncodeAll(items) + rest == rest;
    } else {
      var first, others := Encode(items[0]), EncodeAll(items[1..]);
      ReadWritten(items[0], others + rest);
      ReadAllWritten(items[1..], rest);
      ReadItemsStep(|items|, first + (others + rest), items[0], others + rest, items[1..], rest);
      Associative(first, others, rest);
    }
  }

  /** What was read, written again, is exactly what was consumed. */
  lemma {:induction false} ReadExact(bs: bytes)
    requires ReadItem(bs).ItemRead?
    ensures var r := ReadItem(bs); Valid(r.item) && bs == Encode(r.item) + r.rest
    decreases |bs|, 0
  {
    hide Head, ReadHead, ReadItems, ReadLeaf;
    var h, r := ReadHead(bs), ReadItem(bs);
    if h.major == 4 {
      ReadItemsExact(h.n, h.rest);
      var children := ReadItems(h.n, h.rest);
      assert r.item == Arr(h.w, children.items);
    } else if h.major == 5 {
      ReadItemsExact(2 * h.n, h.rest);
      var children := ReadItems(2 * h.n, h.rest);
      assert r.item == Map(h.w, children.items);
    } else {
      ReadLeafExact(h);
    }
    assert Valid(r.item) && h == HeadRead(Major(r.item), HeadWidth(r.item), Arg(r.item), Body(r.item) + r.rest);
    Associative(Head(h.major, h.w, h.n), Body(r.item), r.rest);
    ReadHeadExact(bs);
  }

  lemma {:induction false} ReadItemsExact(count: nat, bs: bytes)
    requires ReadItems(count, bs).ItemsRead?
    ensures var r := ReadItems(count, bs); ValidAll(r.items) && bs == EncodeAll(r.items) + r.rest
    decreases |bs|, 1
  {
    hide ReadItem, Encode, Valid;
    if count > 0 {
      ReadExact(bs);
      var first := ReadItem(bs);
      ReadItemsExact(count - 1, first.rest);
      var others := ReadItems(count - 1, first.rest);
      assert ([first.item] + others.items)[1..] == others.items;
      Associative(Encode(first.item), EncodeAll(others.items), others.rest);
    }
  }

  // ----- Whole inputs -----

  /** One item and nothing after it. */
  function Unmarshal(data: bytes): Option<Item> {
    match ReadItem(data)
    case NoItem => None
    case ItemRead(item, rest) => if rest == [] then Some(item) else None
  }

  /** Reading a whole input and writing an item are inverse bijections. */
  lemma UnmarshalExact(data: bytes, i: Item)
    ensures Unmarshal(data) == Some(i) <==> Valid(i) && Encode(i) == data
  {
    if Unmarshal(data) == Some(i) {
      ReadExact(data);
      assert Encode(i) + [] == Encode(i);
    }
    if Valid(i) && Encode(i) == data {
      ReadWritten(i, []);
      assert data + [] == data;
    }
  }

  lemma EncodeInjective(i: Item, j: Item)
    requires Valid(i) && Valid(j) && Encode(i) == Encode(j)
    ensures i == j
  {
    UnmarshalExact(Encode(i), i);
    UnmarshalExact(Encode(j), j);
  }

  // ----- Splitting an array into raw elements -----

  datatype Split = NoSplit | Split(elements: seq<bytes>, rest: bytes)

  /** Cuts `count` items off the front, keeping the bytes of each as they are. */
  function SplitItems(count: nat, bs: bytes): (r: Split)
    decreases count
  {
    if count == 0 then Split([], bs) else
    match ReadItem(bs)
    case NoItem => NoSplit
    case ItemRead(_, rest) =>
      match SplitItems(count - 1, rest)
      case NoSplit => NoSplit
      case Split(elements, rest') => Split([bs[..|bs| - |rest|]] + elements, rest')
  }

  /** The raw elements of a whole array; null reads as an array without elements. */
  function SplitArray(data: bytes): Option<seq<bytes>> {
    var h := ReadHead(data);
    if h.NoHead? then None
    else if h.major == 4 then
      match SplitItems(h.n, h.rest)
      case NoSplit => None
      case Split(elements, rest) => if rest == [] then Some(elements) else None
    else if Unmarshal(data) == Some(Null) then Some([])
    else None
  }

  /** The encodings of items, one by one. */
  function Encodings(items: seq<Item>): (r: seq<bytes>)
    requires ValidAll(items)
    ensures |r| == |items|
  {
    if items == [] then [] else [Encode(items[0])] + Encodings(items[1..])
  }

  lemma {:induction false} EncodingsAt(items: seq<Item>, k: nat)
    requires ValidAll(items) && k < |items|
    ensures Valid(items[k]) && Encodings(items)[k] == Encode(items[k])
  {
    if k > 0 {
      EncodingsAt(items[1..], k - 1);
    }
  }

  lemma {:induction false} ConcatEncodings(items: seq<Item>)
    requires ValidAll(items)
    ensures Concat(Encodings(items)) == EncodeAll(items)
  {
    if items != [] {
      ConcatEncodings(items[1..]);
      assert Encodings(items)[1..] == Encodings(items[1..]);
    }
  }

  lemma PrefixBefore(a: bytes, b: bytes)
    ensures (a + b)[..|a + b| - |b|] == a
  {
  }

  lemma {:induction false} SplitItemsExact(count: nat, bs: bytes)
    ensures match ReadItems(count, bs)
            case NoItems => SplitItems(count, bs) == NoSplit
            case ItemsRead(items, rest) =>
              ValidAll(items) && SplitItems(count, bs) == Split(Encodings(items), rest)
    decreases count
  {
    hide ReadItem, Encode, Valid;
    if count > 0 {
      var first := ReadItem(bs);
      if first.ItemRead? {
        ReadExact(bs);
        PrefixBefore(Encode(first.item), first.rest);
        SplitItemsExact(count - 1, first.rest);
        var others := ReadItems(count - 1, first.rest);
        if others.ItemsRead? {
          assert ([first.item] + others.items)[1..] == others.items;
          assert ReadItems(count, bs) == ItemsRead([first.item] + others.items, others.rest);
        }
      }
    }
  }

  lemma SplitWritten(w: Width, items: seq<Item>)
    requires Valid(Arr(w, items))
    ensures SplitArray(Encode(Arr(w, items))) == Some(Encodings(items))
  {
    ReadHeadWritten(4, w, |items|, EncodeAll(items));
    ReadAllWritten(items, []);
    assert EncodeAll(items) + [] == EncodeAll(items);
    SplitItemsExact(|items|, EncodeAll(items));
  }

  lemma SplitReads(data: bytes)
    requires SplitArray(data).Some?
    ensures match Unmarshal(data)
            case None => false
            case Some(i) =>
              && Valid(i) && Encode(i) == data
              && (i == Null || i.Arr?)
              && SplitArray(data).value == if i.Arr? then Encodings(i.items) else []
  {
    var h := ReadHead(data);
    if h.major == 4 {
      SplitItemsExact(h.n, h.rest);
      var items := ReadItems(h.n, h.rest).items;
      assert Unmarshal(data) == Some(Arr(h.w, items));
    }
    UnmarshalExact(data, Unmarshal(data).value);
  }

  /** The input is an array head followed by the raw elements, each one a whole item. */
  ghost predicate Partitions(data: bytes, elements: seq<bytes>) {
    exists w, items :: Valid(Arr(w, items)) && elements == Encodings(items)
                       && data == Head(4, w, |items|) + Concat(elements)
  }

  lemma SplitPartitions(data: bytes, elements: seq<bytes>)
    requires SplitArray(data) == Some(elements)
    ensures (data == Encode(Null) && elements == []) || Partitions(data, elements)
  {
    hide SplitArray, Encode, Head, Unmarshal, Encodings, Concat;
    SplitReads(data);
    var i := Unmarshal(data).value;
    if i.Arr? {
      PartitionIsArray(data, elements, i.w, i.items);
    }
  }

  lemma PartitionSplits(data: bytes, elements: seq<bytes>)
    requires Partitions(data, elements)
    ensures SplitArray(data) == Some(elements)
  {
    hide SplitArray, Encode, Head, Encodings, Concat;
    var w, items :| Valid(Arr(w, items)) && elements == Encodings(items)
                    && data == Head(4, w, |items|) + Concat(elements);
    PartitionIsArray(data, elements, w, items);
    SplitWritten(w, items);
  }

  lemma NullSplits()
    ensures SplitArray(Encode(Null)) == Some([])
  {
    UnmarshalExact(Encode(Null), Null);
  }

  /**
   * Splitting an array is an exact partition: the head and the raw elements make up the whole
   * input, every element is one whole item, and nothing else is accepted but null.
   */
  lemma SplitIsPartition(data: bytes, elements: seq<bytes>)
    ensures SplitArray(data) == Some(elements) <==>
            (data == Encode(Null) && elements == []) || Partitions(data, elements)
  {
    hide SplitArray, Encode, Partitions;
    NullSplits();
    if SplitArray(data) == Some(elements) {
      SplitPartitions(data, elements);
    }
    if Partitions(data, elements) {
      PartitionSplits(data, elements);
    }
  }

  lemma PartitionIsArray(data: bytes, elements: seq<bytes>, w: Width, items: seq<Item>)
    requires Valid(Arr(w, items)) && elements == Encodings(items)
    ensures data == Head(4, w, |items|) + Concat(elements) <==> data == Encode(Arr(w, items))
  {
    ConcatEncodings(items);
  }
}
