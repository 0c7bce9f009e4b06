/** A mainnet enterprise address as users write it, and the 29 bytes it stands for. */
module KnownAddress {
  import opened Bytes
  import opened Addresses
  import opened Bech32
  import opened Bech32Words
  import opened Bech32Text

  // addr1vx2fxv2umyhttkxyxp8x0dlpdt3k6cwng5pxj3jhsydzers66hrl8
  const TEXT := "addr1" + TAIL

  const TAIL :=
    "vx2f" + "xv2u" + "myht" + "tkxy" + "xp8x" + "0dlp" + "dt3k"
    + "6cwn" + "g5px" + "j3jh" + "sydz" + "ers" + "66h" + "rl8"

  /** The symbols of the tail: the data, then the checksum. */
  const FRONT: seq<nat> :=
    HALF + [13, 11, 17, 22] + [26, 24, 14, 19] + [8, 20, 1, 6] + [18, 17, 18, 23] + [16, 4, 13, 2] + [25, 3, 16]
  const HALF: seq<nat> :=
    [12, 6, 10, 9] + [6, 12, 10, 28] + [27, 4, 23, 11] + [11, 22, 6, 4] + [6, 1, 7, 6] + [15, 13, 31, 1]

  const DATA: seq<nat> := FRONT + [26, 26, 23] + [3, 31, 7]

  const RAW: bytes :=
    RAW_HALF + [0x6a, 0xe3, 0x6d, 0x61, 0xd3] + [0x45, 0x02, 0x69, 0x46, 0x57] + [0x81, 0x1a, 0x2c, 0x8e]
  const RAW_HALF: bytes :=
    [0x61, 0x94, 0x93, 0x31, 0x5c] + [0xd9, 0x2e, 0xb5, 0xd8, 0xc4] + [0x30, 0x4e, 0x67, 0xb7, 0xe1]

  const HRP: bytes := [0x61, 0x64, 0x64, 0x72] // "addr"

  // ----- Pieces -----

  /** A piece of text spells symbols and takes the register from c to d. */
  ghost predicate Piece(c: bv30, d: bv30, text: string, ns: seq<nat>) {
    && |text| == |ns|
    && (forall i :: 0 <= i < |ns| ==> ns[i] < 32)
    && (forall i :: 0 <= i < |ns| ==> text[i] == TABLE[ns[i]])
    && PolymodWord(c, Words(ns)) == d
  }

  lemma {:induction false} PolymodAppendWords(c: bv30, a: seq<bv5>, b: seq<bv5>)
    ensures PolymodWord(c, a + b) == PolymodWord(PolymodWord(c, a), b)
    decreases |a|
  {
    hide StepWord;
    if a == [] {
      assert a + b == b;
    } else {
      PolymodAppendWords(StepWord(c, a[0]), a[1..], b);
      assert (a + b)[1..] == a[1..] + b;
    }
  }

  lemma PiecesJoin(c: bv30, d: bv30, e: bv30, s: string, t: string, a: seq<nat>, b: seq<nat>)
    requires Piece(c, d, s, a) && Piece(d, e, t, b)
    ensures Piece(c, e, s + t, a + b)
  {
    hide PolymodWord;
    assert Words(a + b) == Words(a) + Words(b);
    PolymodAppendWords(c, Words(a), Words(b));
  }

  lemma OneCharacter(c: bv30, t: char, n: nat)
    requires n < 32 && t == TABLE[n]
    ensures Piece(c, StepWord(c, n as bv5), [t], [n])
  {
    hide StepWord;
    var w := n as bv5;
    assert Words([n]) == [w] && [w][1..] == [];
    assert PolymodWord(StepWord(c, w), []) == StepWord(c, w);
  }

  lemma ThreeCharacters(c: bv30, t: string, ns: seq<nat>)
    requires |t| == |ns| == 3
    requires ns[0] < 32 && ns[1] < 32 && ns[2] < 32
    requires t[0] == TABLE[ns[0]] && t[1] == TABLE[ns[1]] && t[2] == TABLE[ns[2]]
    ensures Piece(c, StepWord(StepWord(StepWord(c, ns[0] as bv5), ns[1] as bv5), ns[2] as bv5), t, ns)
  {
    hide StepWord, Piece;
    var c1 := StepWord(c, ns[0] as bv5);
    var c2 := StepWord(c1, ns[1] as bv5);
    OneCharacter(c, t[0], ns[0]);
    OneCharacter(c1, t[1], ns[1]);
    OneCharacter(c2, t[2], ns[2]);
    PiecesJoin(c, c1, c2, [t[0]], [t[1]], [ns[0]], [ns[1]]);
    PiecesJoin(c, c2, StepWord(c2, ns[2] as bv5), [t[0]] + [t[1]], [t[2]], [ns[0]] + [ns[1]], [ns[2]]);
    assert t == [t[0]] + [t[1]] + [t[2]] && ns == [ns[0]] + [ns[1]] + [ns[2]];
  }

  lemma FourCharacters(c: bv30, t: string, ns: seq<nat>)
    requires |t| == |ns| == 4
    requires ns[0] < 32 && ns[1] < 32 && ns[2] < 32 && ns[3] < 32
    requires t[0] == TABLE[ns[0]] && t[1] == TABLE[ns[1]] && t[2] == TABLE[ns[2]] && t[3] == TABLE[ns[3]]
    ensures Piece(c, StepWord(StepWord(StepWord(StepWord(c, ns[0] as bv5), ns[1] as bv5), ns[2] as bv5), ns[3] as bv5),
                  t, ns)
  {
    hide StepWord, Piece;
    ThreeCharacters(c, t[..3], ns[..3]);
    var c3 := StepWord(StepWord(StepWord(c, ns[0] as bv5), ns[1] as bv5), ns[2] as bv5);
    OneCharacter(c3, t[3], ns[3]);
    PiecesJoin(c, c3, StepWord(c3, ns[3] as bv5), t[..3], [t[3]], ns[..3], [ns[3]]);
    assert t == t[..3] + [t[3]] && ns == ns[..3] + [ns[3]];
  }

  // ----- The text -----

  lemma Piece1()
    ensures Piece(0x17747fcb, 0x1f1c28f2, "vx2f", [12, 6, 10, 9])
  {
    hide Piece;
    FourCharacters(0x17747fcb, "vx2f", [12, 6, 10, 9]);
  }

  lemma Piece2()
    ensures Piece(0x1f1c28f2, 0x1b5fbeb8, "xv2u", [6, 12, 10, 28])
  {
    hide Piece;
    FourCharacters(0x1f1c28f2, "xv2u", [6, 12, 10, 28]);
  }

  lemma Piece3()
    ensures Piece(0x1b5fbeb8, 0x152c4d74, "myht", [27, 4, 23, 11])
  {
    hide Piece;
    FourCharacters(0x1b5fbeb8, "myht", [27, 4, 23, 11]);
  }

  lemma Piece4()
    ensures Piece(0x152c4d74, 0x2c36b46d, "tkxy", [11, 22, 6, 4])
  {
    hide Piece;
    FourCharacters(0x152c4d74, "tkxy", [11, 22, 6, 4]);
  }

  lemma Piece5()
    ensures Piece(0x2c36b46d, 0xf1c615d, "xp8x", [6, 1, 7, 6])
  {
    hide Piece;
    FourCharacters(0x2c36b46d, "xp8x", [6, 1, 7, 6]);
  }

  lemma Piece6()
    ensures Piece(0xf1c615d, 0x655e988, "0dlp", [15, 13, 31, 1])
  {
    hide Piece;
    FourCharacters(0xf1c615d, "0dlp", [15, 13, 31, 1]);
  }

  lemma Piece7()
    ensures Piece(0x655e988, 0x2d62a8b2, "dt3k", [13, 11, 17, 22])
  {
    hide Piece;
    FourCharacters(0x655e988, "dt3k", [13, 11, 17, 22]);
  }

  lemma Piece8()
    ensures Piece(0x2d62a8b2, 0xa4d920, "6cwn", [26, 24, 14, 19])
  {
    hide Piece;
    FourCharacters(0x2d62a8b2, "6cwn", [26, 24, 14, 19]);
  }

  lemma Piece9()
    ensures Piece(0xa4d920, 0x31939cbb, "g5px", [8, 20, 1, 6])
  {
    hide Piece;
    FourCharacters(0xa4d920, "g5px", [8, 20, 1, 6]);
  }

  lemma Piece10()
    ensures Piece(0x31939cbb, 0x29cd7b8c, "j3jh", [18, 17, 18, 23])
  {
    hide Piece;
    FourCharacters(0x31939cbb, "j3jh", [18, 17, 18, 23]);
  }

  lemma Piece11()
    ensures Piece(0x29cd7b8c, 0x3b92dd94, "sydz", [16, 4, 13, 2])
  {
    hide Piece;
    FourCharacters(0x29cd7b8c, "sydz", [16, 4, 13, 2]);
  }

  lemma Piece12()
    ensures Piece(0x3b92dd94, 0x3955d657, "ers", [25, 3, 16])
  {
    hide Piece;
    ThreeCharacters(0x3b92dd94, "ers", [25, 3, 16]);
  }

  lemma Piece13()
    ensures Piece(0x3955d657, 0x103853e3, "66h", [26, 26, 23])
  {
    hide Piece;
    ThreeCharacters(0x3955d657, "66h", [26, 26, 23]);
  }

  lemma Piece14()
    ensures Piece(0x103853e3, 0x1, "rl8", [3, 31, 7])
  {
    hide Piece;
    ThreeCharacters(0x103853e3, "rl8", [3, 31, 7]);
  }

  lemma WholeTail()
    ensures Piece(0x17747fcb, 0x1, TAIL, DATA)
  {
    hide Piece;
    Piece1();
    Piece2();
    Piece3();
    Piece4();
    Piece5();
    Piece6();
    Piece7();
    Piece8();
    Piece9();
    Piece10();
    Piece11();
    Piece12();
    Piece13();
    Piece14();
    var t1, n1 := "vx2f" + "xv2u", [12, 6, 10, 9] + [6, 12, 10, 28];
    PiecesJoin(0x17747fcb, 0x1f1c28f2, 0x1b5fbeb8, "vx2f", "xv2u", [12, 6, 10, 9], [6, 12, 10, 28]);
    var t2, n2 := t1 + "myht", n1 + [27, 4, 23, 11];
    PiecesJoin(0x17747fcb, 0x1b5fbeb8, 0x152c4d74, t1, "myht", n1, [27, 4, 23, 11]);
    var t3, n3 := t2 + "tkxy", n2 + [11, 22, 6, 4];
    PiecesJoin(0x17747fcb, 0x152c4d74, 0x2c36b46d, t2, "tkxy", n2, [11, 22, 6, 4]);
    var t4, n4 := t3 + "xp8x", n3 + [6, 1, 7, 6];
    PiecesJoin(0x17747fcb, 0x2c36b46d, 0xf1c615d, t3, "xp8x", n3, [6, 1, 7, 6]);
    var t5, n5 := t4 + "0dlp", n4 + [15, 13, 31, 1];
    PiecesJoin(0x17747fcb, 0xf1c615d, 0x655e988, t4, "0dlp", n4, [15, 13, 31, 1]);
    var t6, n6 := t5 + "dt3k", n5 + [13, 11, 17, 22];
    PiecesJoin(0x17747fcb, 0x655e988, 0x2d62a8b2, t5, "dt3k", n5, [13, 11, 17, 22]);
    var t7, n7 := t6 + "6cwn", n6 + [26, 24, 14, 19];
    PiecesJoin(0x17747fcb, 0x2d62a8b2, 0xa4d920, t6, "6cwn", n6, [26, 24, 14, 19]);
    var t8, n8 := t7 + "g5px", n7 + [8, 20, 1, 6];
    PiecesJoin(0x17747fcb, 0xa4d920, 0x31939cbb, t7, "g5px", n7, [8, 20, 1, 6]);
    var t9, n9 := t8 + "j3jh", n8 + [18, 17, 18, 23];
    PiecesJoin(0x17747fcb, 0x31939cbb, 0x29cd7b8c, t8, "j3jh", n8, [18, 17, 18, 23]);
    var t10, n10 := t9 + "sydz", n9 + [16, 4, 13, 2];
    PiecesJoin(0x17747fcb, 0x29cd7b8c, 0x3b92dd94, t9, "sydz", n9, [16, 4, 13, 2]);
    var t11, n11 := t10 + "ers", n10 + [25, 3, 16];
    PiecesJoin(0x17747fcb, 0x3b92dd94, 0x3955d657, t10, "ers", n10, [25, 3, 16]);
    var t12, n12 := t11 + "66h", n11 + [26, 26, 23];
    PiecesJoin(0x17747fcb, 0x3955d657, 0x103853e3, t11, "66h", n11, [26, 26, 23]);
    var t13, n13 := t12 + "rl8", n12 + [3, 31, 7];
    PiecesJoin(0x17747fcb, 0x103853e3, 0x1, t12, "rl8", n12, [3, 31, 7]);
  }

  // ----- The bytes -----

  lemma NumberAppend(r: nat, a: seq<nat>, x: nat)
    ensures Number(r, a + [x]) == Number(r, a) * r + x
  {
    assert (a + [x])[..|a|] == a;
  }

  /** Eight symbols and five bytes that are one number, after as much that is one number. */
  lemma NumbersJoin(s: seq<nat>, b: seq<nat>, n: seq<nat>, n': seq<nat>, m: seq<nat>)
    requires Number(32, s) == Number(256, b) && |n| == |n'| == 4 && |m| == 5
    requires n[0] * 0x8_0000_0000 + n[1] * 0x4000_0000 + n[2] * 0x200_0000 + n[3] * 0x10_0000 + n'[0] * 0x8000
             + n'[1] * 0x400 + n'[2] * 0x20 + n'[3]
             == m[0] * 0x1_0000_0000 + m[1] * 0x100_0000 + m[2] * 0x1_0000 + m[3] * 0x100 + m[4]
    ensures Number(32, s + n + n') == Number(256, b + m)
  {
    hide Number;
    FourMore(32, s, n);
    FourMore(32, s + n, n');
    FiveMore(b, m);
  }

  /** Seven more symbols are four more bytes and three zero bits. */
  lemma NumbersEnd(s: seq<nat>, b: seq<nat>, n: seq<nat>, n': seq<nat>, m: seq<nat>)
    requires Number(32, s) == Number(256, b) && |n| == |m| == 4 && |n'| == 3
    requires n[0] * 0x4000_0000 + n[1] * 0x200_0000 + n[2] * 0x10_0000 + n[3] * 0x8000
             + n'[0] * 0x400 + n'[1] * 0x20 + n'[2]
             == 8 * (m[0] * 0x100_0000 + m[1] * 0x1_0000 + m[2] * 0x100 + m[3])
    ensures Number(32, s + n + n') == Number(256, b + m) * 8
  {
    hide Number;
    FourMore(32, s, n);
    NumberAppend(32, s + n, n'[0]);
    NumberAppend(32, s + n + [n'[0]], n'[1]);
    NumberAppend(32, s + n + [n'[0]] + [n'[1]], n'[2]);
    assert s + n + [n'[0]] + [n'[1]] + [n'[2]] == s + n + n';
    FourMore(256, b, m);
  }

  lemma FiveMore(b: seq<nat>, m: seq<nat>)
    requires |m| == 5
    ensures Number(256, b + m) ==
            Number(256, b) * 0x100_0000_0000
            + (m[0] * 0x1_0000_0000 + m[1] * 0x100_0000 + m[2] * 0x1_0000 + m[3] * 0x100 + m[4])
  {
    hide Number;
    FourMore(256, b, m[..4]);
    NumberAppend(256, b + m[..4], m[4]);
    assert b + m[..4] + [m[4]] == b + m;
  }

  lemma FourMore(r: nat, s: seq<nat>, n: seq<nat>)
    requires |n| == 4
    ensures Number(r, s + n) == (((Number(r, s) * r + n[0]) * r + n[1]) * r + n[2]) * r + n[3]
  {
    hide Number;
    NumberAppend(r, s, n[0]);
    NumberAppend(r, s + [n[0]], n[1]);
    NumberAppend(r, s + [n[0]] + [n[1]], n[2]);
    NumberAppend(r, s + [n[0]] + [n[1]] + [n[2]], n[3]);
    assert s + [n[0]] + [n[1]] + [n[2]] + [n[3]] == s + n;
  }

  lemma HalfFront()
    ensures Number(32, HALF) == Number(256, RAW_HALF)
  {
    hide Number;
    Empty();
    var s0: seq<nat>, b0: seq<nat> := [], [];
    var n0, n0': seq<nat>, m0: bytes := [12, 6, 10, 9], [6, 12, 10, 28], [0x61, 0x94, 0x93, 0x31, 0x5c];
    NumbersJoin(s0, b0, n0, n0', m0);
    var s1, b1 := s0 + n0 + n0', b0 + m0;
    var n1, n1': seq<nat>, m1: bytes := [27, 4, 23, 11], [11, 22, 6, 4], [0xd9, 0x2e, 0xb5, 0xd8, 0xc4];
    NumbersJoin(s1, b1, n1, n1', m1);
    var s2, b2 := s1 + n1 + n1', b1 + m1;
    var n2, n2': seq<nat>, m2: bytes := [6, 1, 7, 6], [15, 13, 31, 1], [0x30, 0x4e, 0x67, 0xb7, 0xe1];
    NumbersJoin(s2, b2, n2, n2', m2);
    var s3, b3 := s2 + n2 + n2', b2 + m2;
    assert s1 == n0 + n0' && b1 == m0;
  }

  /** The data symbols are the raw bytes. */
  lemma WholeFront()
    ensures Number(32, FRONT) == Number(256, RAW) * 8
  {
    hide Number;
    HalfFront();
    var s3, b3: seq<nat> := HALF, RAW_HALF;
    var n3, n3': seq<nat>, m3: bytes := [13, 11, 17, 22], [26, 24, 14, 19], [0x6a, 0xe3, 0x6d, 0x61, 0xd3];
    NumbersJoin(s3, b3, n3, n3', m3);
    var s4, b4 := s3 + n3 + n3', b3 + m3;
    var n4, n4': seq<nat>, m4: bytes := [8, 20, 1, 6], [18, 17, 18, 23], [0x45, 0x02, 0x69, 0x46, 0x57];
    NumbersJoin(s4, b4, n4, n4', m4);
    var s5, b5 := s4 + n4 + n4', b4 + m4;
    NumbersEnd(s5, b5, [16, 4, 13, 2], [25, 3, 16], [0x81, 0x1a, 0x2c, 0x8e]);
  }

  lemma Empty()
    ensures Number(32, []) == 0 && Number(256, []) == 0
  {
  }

  // ----- The address -----

  /** The prefix "addr" expands to nine words, which are run like a piece of text. */
  lemma Prefix1()
    ensures Piece(1, 0x118c63, "rrrr", [3, 3, 3, 3])
  {
    hide Piece;
    FourCharacters(1, "rrrr", [3, 3, 3, 3]);
  }

  lemma Prefix2()
    ensures Piece(0x118c63, 0x3dc69dc9, "qpyy", [0, 1, 4, 4])
  {
    hide Piece;
    FourCharacters(0x118c63, "qpyy", [0, 1, 4, 4]);
  }

  lemma Prefix3()
    ensures Piece(0x3dc69dc9, 0x17747fcb, "j", [18])
  {
    hide Piece;
    OneCharacter(0x3dc69dc9, 'j', 18);
  }

  lemma WholeText()
    ensures PolymodWord(1, Words(HrpWords(HRP) + DATA)) == 1
  {
    hide Piece, PolymodWord;
    Prefix1();
    Prefix2();
    Prefix3();
    WholeTail();
    PiecesJoin(1, 0x118c63, 0x3dc69dc9, "rrrr", "qpyy", [3, 3, 3, 3], [0, 1, 4, 4]);
    PiecesJoin(1, 0x3dc69dc9, 0x17747fcb, "rrrr" + "qpyy", "j", [3, 3, 3, 3] + [0, 1, 4, 4], [18]);
    PiecesJoin(1, 0x17747fcb, 1, "rrrr" + "qpyy" + "j", TAIL, [3, 3, 3, 3] + [0, 1, 4, 4] + [18], DATA);
    PieceRegister(1, 1, "rrrr" + "qpyy" + "j" + TAIL, [3, 3, 3, 3] + [0, 1, 4, 4] + [18] + DATA);
    HrpWordsAre();
  }

  lemma HrpWordsAre()
    ensures HrpWords(HRP) == [3, 3, 3, 3] + [0, 1, 4, 4] + [18]
  {
  }

  lemma PieceRegister(c: bv30, d: bv30, text: string, ns: seq<nat>)
    requires Piece(c, d, text, ns)
    ensures |text| == |ns| && forall i :: 0 <= i < |ns| ==> ns[i] < 32 && text[i] == TABLE[ns[i]]
    ensures PolymodWord(c, Words(ns)) == d
  {
  }

  lemma TableIsLower(n: nat)
    requires n < 32
    ensures 33 <= TABLE[n] as int <= 126 && Small(TABLE[n] as int) == TABLE[n] as int
  {
  }

  lemma HeadIs(i: nat)
    requires i < 5
    ensures TEXT[i] == "addr1"[i]
    ensures 33 <= TEXT[i] as int <= 126 && Small(TEXT[i] as int) == TEXT[i] as int
    ensures i < 4 ==> TEXT[i] as int == HRP[i]
    ensures i == 4 ==> TEXT[i] as int == 49
  {
    hide TAIL;
  }

  lemma TailIs(i: nat)
    requires 5 <= i < |TEXT|
    ensures i - 5 < |TAIL| && TEXT[i] == TAIL[i - 5]
  {
    hide TAIL;
  }

  lemma TextIsLower(i: nat)
    requires i < |TEXT|
    ensures 33 <= TEXT[i] as int <= 126 && Small(TEXT[i] as int) == TEXT[i] as int
    ensures i < 4 ==> TEXT[i] as int == HRP[i]
    ensures i == 4 ==> TEXT[i] as int == 49
    ensures i >= 5 ==> |DATA| == |TAIL| && DATA[i - 5] < 32 && TEXT[i] == TABLE[DATA[i - 5]]
  {
    hide Piece, PolymodWord, TAIL, DATA, TEXT, Small;
    if i >= 5 {
      WholeTail();
      PieceRegister(0x17747fcb, 1, TAIL, DATA);
      TailIs(i);
      TableIsLower(DATA[i - 5]);
    } else {
      HeadIs(i);
    }
  }

  lemma Lengths()
    ensures |TAIL| == |DATA| == 53 && |FRONT| == 47 && |RAW| == 29 && DATA[..47] == FRONT && |TEXT| == 58
  {
  }

  lemma TextReads()
    ensures forall i :: 0 <= i < |TEXT| ==> TEXT[i] as int < 256
    ensures Reads(1, Ascii(TEXT), HRP, DATA)
  {
    hide PolymodWord, Words, HrpWords, Small;
    forall i | 0 <= i < |TEXT| ensures 33 <= TEXT[i] as int <= 126 && Small(TEXT[i] as int) == TEXT[i] as int {
      TextIsLower(i);
    }
    Lengths();
    WholeText();
    var s := Ascii(TEXT);
    forall i | 0 <= i < 53 ensures DATA[i] < 32 && Small(s[5 + i]) == TABLE[DATA[i]] as int {
      TextIsLower(5 + i);
    }
    forall i | 0 <= i < 4 ensures Small(s[i]) == HRP[i] {
      TextIsLower(i);
    }
    TextIsLower(4);
    forall i | 0 <= i < |s| ensures !(65 <= s[i] <= 90) {
      NotUpper(s[i]);
    }
  }

  lemma NotUpper(c: int)
    requires Small(c) == c
    ensures !(65 <= c <= 90)
  {
  }

  /** The address decodes, wherever BIP-173's constant is accepted, to these very parts. */
  lemma AddressDecodes(checksums: set<state>)
    requires ONE in checksums
    ensures forall i :: 0 <= i < |TEXT| ==> TEXT[i] as int < 256
    ensures DecodeValue(checksums, Ascii(TEXT)) ==
            Success(Decoded(RAW, 0x61, 1, 6, Credential(Some(RAW[1..]), false), Credential(None, false)))
  {
    hide Bech32.Decode, Number, Reads, WordBits;
    TextReads();
    Lengths();
    WholeFront();
    assert Regrouped(FRONT, RAW);
    Bech32Text.DecodeInNumbers(checksums, Ascii(TEXT), HRP, RAW);
    assert RAW[0] == 0x61;
    assert RAW[1..29] == RAW[1..];
  }
}
