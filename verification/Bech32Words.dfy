/**
 * The checksum register as a 30-bit word, the way BIP-173 writes it: the bit-string register of
 * module Bech32 computes the same.
 */
module Bech32Words {
  import opened Bytes
  import opened Bech32

  function Plus(a: bv30, b: bv30): bv30 {
    a ^ b
  }

  function Term(on: bool, g: bv30): bv30 {
    if on then g else 0
  }

  function Shifted(c: bv30, v: bv5): bv30 {
    ((c & 0x1ffffff) << 5) ^ (v as bv30)
  }

  function SelectWord(top: symbol, k0: bv30, k1: bv30, k2: bv30, k3: bv30, k4: bv30): bv30 {
    Plus(Plus(Plus(Plus(Term(top[4], k0), Term(top[3], k1)), Term(top[2], k2)), Term(top[1], k3)), Term(top[0], k4))
  }

  function GeneratorWord(top: symbol): bv30 {
    SelectWord(top, 0x3b6a57b2, 0x26508e6d, 0x1ea119fa, 0x3d4233dd, 0x2a1462b3)
  }

  function StepParts(c: bv30, v: bv5): bv30 {
    Plus(Shifted(c, v), GeneratorWord(WordBits5((c >> 25) as bv5)))
  }

  /** The step of BIP-173's reference code. */
  function StepWord(c: bv30, v: bv5): bv30 {
    var top := c >> 25;
    (((c & 0x1ffffff) << 5) ^ (v as bv30))
    ^ ((if top & 1 != 0 then 0x3b6a57b2 else 0) ^ (if top & 2 != 0 then 0x26508e6d else 0)
       ^ (if top & 4 != 0 then 0x1ea119fa else 0) ^ (if top & 8 != 0 then 0x3d4233dd else 0)
       ^ (if top & 16 != 0 then 0x2a1462b3 else 0))
  }

  lemma StepWordParts(c: bv30, v: bv5)
    ensures StepWord(c, v) == StepParts(c, v)
  {
    var w := (c >> 25) as bv5;
    assert BitOf(w, 0) == ((c >> 25) & 1 != 0) && BitOf(w, 1) == ((c >> 25) & 2 != 0);
    assert BitOf(w, 2) == ((c >> 25) & 4 != 0) && BitOf(w, 3) == ((c >> 25) & 8 != 0);
    assert BitOf(w, 4) == ((c >> 25) & 16 != 0);
  }

  function PolymodWord(c: bv30, vs: seq<bv5>): bv30
    decreases |vs|
  {
    if vs == [] then c else PolymodWord(StepWord(c, vs[0]), vs[1..])
  }

  function SymbolsOf(vs: seq<bv5>): (r: seq<symbol>)
    ensures |r| == |vs|
  {
    if vs == [] then [] else [WordBits5(vs[0])] + SymbolsOf(vs[1..])
  }

  // ----- The two registers agree -----

  lemma BitXor(a: bv5, b: bv5)
    ensures BitOf(a ^ b, 0) == (BitOf(a, 0) != BitOf(b, 0))
    ensures BitOf(a ^ b, 1) == (BitOf(a, 1) != BitOf(b, 1))
    ensures BitOf(a ^ b, 2) == (BitOf(a, 2) != BitOf(b, 2))
    ensures BitOf(a ^ b, 3) == (BitOf(a, 3) != BitOf(b, 3))
    ensures BitOf(a ^ b, 4) == (BitOf(a, 4) != BitOf(b, 4))
  {
  }

  lemma XorFiveBits(a: bits, b: bits)
    requires |a| == |b| == 5
    ensures Xor(a, b) == [a[0] != b[0], a[1] != b[1], a[2] != b[2], a[3] != b[3], a[4] != b[4]]
  {
  }

  lemma XorFive(a: bv5, b: bv5)
    ensures Xor(WordBits5(a), WordBits5(b)) == WordBits5(a ^ b)
  {
    hide BitOf, Xor;
    BitXor(a, b);
    XorFiveBits(WordBits5(a), WordBits5(b));
  }

  lemma GroupXor(a: bv30, b: bv30)
    ensures Group(a ^ b, 0) == Group(a, 0) ^ Group(b, 0)
    ensures Group(a ^ b, 1) == Group(a, 1) ^ Group(b, 1)
    ensures Group(a ^ b, 2) == Group(a, 2) ^ Group(b, 2)
    ensures Group(a ^ b, 3) == Group(a, 3) ^ Group(b, 3)
    ensures Group(a ^ b, 4) == Group(a, 4) ^ Group(b, 4)
    ensures Group(a ^ b, 5) == Group(a, 5) ^ Group(b, 5)
  {
  }

  lemma XorAppend(a: bits, b: bits, c: bits, d: bits)
    requires |a| == |c| && |b| == |d|
    ensures Xor(a + b, c + d) == Xor(a, c) + Xor(b, d)
  {
  }

  lemma XorSix(a: bits, b: bits, c: bits, d: bits, e: bits, f: bits,
               a': bits, b': bits, c': bits, d': bits, e': bits, f': bits)
    requires |a| == |a'| && |b| == |b'| && |c| == |c'| && |d| == |d'| && |e| == |e'| && |f| == |f'|
    ensures Xor(Join(a, b, c, d, e, f), Join(a', b', c', d', e', f'))
            == Join(Xor(a, a'), Xor(b, b'), Xor(c, c'), Xor(d, d'), Xor(e, e'), Xor(f, f'))
  {
    hide Xor;
    XorAppend(a, b, a', b');
    XorAppend(a + b, c, a' + b', c');
    XorAppend(a + b + c, d, a' + b' + c', d');
    XorAppend(a + b + c + d, e, a' + b' + c' + d', e');
    XorAppend(a + b + c + d + e, f, a' + b' + c' + d' + e', f');
  }

  lemma XorGroups(a: bv30, b: bv30)
    ensures Xor(WordBits5(Group(a, 0)), WordBits5(Group(b, 0))) == WordBits5(Group(a ^ b, 0))
    ensures Xor(WordBits5(Group(a, 1)), WordBits5(Group(b, 1))) == WordBits5(Group(a ^ b, 1))
    ensures Xor(WordBits5(Group(a, 2)), WordBits5(Group(b, 2))) == WordBits5(Group(a ^ b, 2))
    ensures Xor(WordBits5(Group(a, 3)), WordBits5(Group(b, 3))) == WordBits5(Group(a ^ b, 3))
    ensures Xor(WordBits5(Group(a, 4)), WordBits5(Group(b, 4))) == WordBits5(Group(a ^ b, 4))
    ensures Xor(WordBits5(Group(a, 5)), WordBits5(Group(b, 5))) == WordBits5(Group(a ^ b, 5))
  {
    hide Xor, WordBits5, Group;
    GroupXor(a, b);
    XorFive(Group(a, 0), Group(b, 0));
    XorFive(Group(a, 1), Group(b, 1));
    XorFive(Group(a, 2), Group(b, 2));
    XorFive(Group(a, 3), Group(b, 3));
    XorFive(Group(a, 4), Group(b, 4));
    XorFive(Group(a, 5), Group(b, 5));
  }

  lemma XorWords(a: bv30, b: bv30)
    ensures Xor(WordBits(a), WordBits(b)) == WordBits(Plus(a, b))
  {
    hide Xor, WordBits5, Group, Join;
    XorSix(WordBits5(Group(a, 0)), WordBits5(Group(a, 1)), WordBits5(Group(a, 2)),
           WordBits5(Group(a, 3)), WordBits5(Group(a, 4)), WordBits5(Group(a, 5)),
           WordBits5(Group(b, 0)), WordBits5(Group(b, 1)), WordBits5(Group(b, 2)),
           WordBits5(Group(b, 3)), WordBits5(Group(b, 4)), WordBits5(Group(b, 5)));
    XorGroups(a, b);
  }

  lemma ShiftedGroups(c: bv30, v: bv5)
    ensures Group(Shifted(c, v), 0) == Group(c, 1) && Group(Shifted(c, v), 1) == Group(c, 2)
    ensures Group(Shifted(c, v), 2) == Group(c, 3) && Group(Shifted(c, v), 3) == Group(c, 4)
    ensures Group(Shifted(c, v), 4) == Group(c, 5) && Group(Shifted(c, v), 5) == v
  {
  }

  lemma DropFirst(a: symbol, b: symbol, c: symbol, d: symbol, e: symbol, f: symbol, v: symbol)
    ensures Join(a, b, c, d, e, f)[5..] + v == Join(b, c, d, e, f, v)
    ensures Join(a, b, c, d, e, f)[..5] == a
  {
  }

  lemma ShiftWord(c: bv30, v: bv5)
    ensures WordBits(c)[5..] + WordBits5(v) == WordBits(Shifted(c, v))
    ensures WordBits(c)[..5] == WordBits5(Group(c, 0))
  {
    hide WordBits5, Group, Shifted, Join;
    ShiftedGroups(c, v);
    DropFirst(WordBits5(Group(c, 0)), WordBits5(Group(c, 1)), WordBits5(Group(c, 2)),
              WordBits5(Group(c, 3)), WordBits5(Group(c, 4)), WordBits5(Group(c, 5)), WordBits5(v));
  }

  lemma GateIsTerm(on: bool, g: bv30)
    ensures Gate(on, WordBits(g)) == WordBits(Term(on, g))
  {
    if !on {
      assert WordBits5(0) == Zeros(5);
      assert forall i: nat :: i < 6 ==> Group(0, i) == 0;
      assert Zeros(30) == Zeros(5) + Zeros(5) + Zeros(5) + Zeros(5) + Zeros(5) + Zeros(5);
    }
  }

  lemma GatesXor(c: bv30, on: bool, g: bv30)
    ensures Xor(WordBits(c), Gate(on, WordBits(g))) == WordBits(Plus(c, Term(on, g)))
  {
    hide Xor, WordBits, Term, Gate, Plus;
    GateIsTerm(on, g);
    XorWords(c, Term(on, g));
  }

  lemma SelectAsWord(top: symbol, k0: bv30, k1: bv30, k2: bv30, k3: bv30, k4: bv30)
    ensures Select(top, k0, k1, k2, k3, k4) == WordBits(SelectWord(top, k0, k1, k2, k3, k4))
  {
    hide Xor, WordBits, Term, Gate, Plus;
    GateIsTerm(top[4], k0);
    var t := Term(top[4], k0);
    TwoGates(t, top[3], k1, top[2], k2);
    TwoGates(Plus(Plus(t, Term(top[3], k1)), Term(top[2], k2)), top[1], k3, top[0], k4);
  }

  lemma TwoGates(c: bv30, on: bool, g: bv30, on': bool, g': bv30)
    ensures Xor(Xor(WordBits(c), Gate(on, WordBits(g))), Gate(on', WordBits(g')))
            == WordBits(Plus(Plus(c, Term(on, g)), Term(on', g')))
  {
    hide Xor, WordBits, Term, Gate, Plus;
    GatesXor(c, on, g);
    GatesXor(Plus(c, Term(on, g)), on', g');
  }

  lemma TopGroup(c: bv30)
    ensures Group(c, 0) == (c >> 25) as bv5
  {
  }

  lemma GeneratorAsWord(top: symbol)
    ensures Generator(top) == WordBits(GeneratorWord(top))
  {
    hide Select, SelectWord, WordBits;
    SelectAsWord(top, 0x3b6a57b2, 0x26508e6d, 0x1ea119fa, 0x3d4233dd, 0x2a1462b3);
  }

  lemma StepAsWord(c: bv30, v: bv5)
    ensures Step(WordBits(c), WordBits5(v)) == WordBits(StepWord(c, v))
  {
    hide Xor, WordBits, WordBits5, Group, Shifted, GeneratorWord, Generator, Plus, StepWord;
    StepWordParts(c, v);
    TopGroup(c);
    ShiftWord(c, v);
    GeneratorAsWord(WordBits5(Group(c, 0)));
    XorWords(Shifted(c, v), GeneratorWord(WordBits5(Group(c, 0))));
  }

  /** The bit-string checksum is BIP-173's, word by word. */
  lemma {:induction false} PolymodAsWord(c: bv30, vs: seq<bv5>)
    ensures Polymod(WordBits(c), SymbolsOf(vs)) == WordBits(PolymodWord(c, vs))
    decreases |vs|
  {
    hide Step, StepWord, WordBits, WordBits5;
    if vs != [] {
      StepAsWord(c, vs[0]);
      PolymodAsWord(StepWord(c, vs[0]), vs[1..]);
      assert SymbolsOf(vs)[1..] == SymbolsOf(vs[1..]);
    }
  }

  // ----- Running the register -----

  function EightSteps(c: bv30, a: bv5, b: bv5, d: bv5, e: bv5, f: bv5, g: bv5, h: bv5, i: bv5): bv30 {
    StepWord(StepWord(StepWord(StepWord(StepWord(StepWord(StepWord(StepWord(c, a), b), d), e), f), g), h), i)
  }

  function EightFrom(c: bv30, vs: seq<bv5>, k: nat): bv30
    requires k + 8 <= |vs|
  {
    EightSteps(c, vs[k], vs[k + 1], vs[k + 2], vs[k + 3], vs[k + 4], vs[k + 5], vs[k + 6], vs[k + 7])
  }

  lemma OneStep(c: bv30, vs: seq<bv5>, k: nat)
    requires k < |vs|
    ensures PolymodWord(c, vs[k..]) == PolymodWord(StepWord(c, vs[k]), vs[k + 1..])
  {
    hide StepWord;
    assert vs[k..][1..] == vs[k + 1..];
  }

  lemma EightStepsIs(c: bv30, vs: seq<bv5>, k: nat)
    requires k + 8 <= |vs|
    ensures PolymodWord(c, vs[k..]) == PolymodWord(EightFrom(c, vs, k), vs[k + 8..])
  {
    hide StepWord, PolymodWord;
    var c1 := StepWord(c, vs[k]);
    var c2 := StepWord(c1, vs[k + 1]);
    var c3 := StepWord(c2, vs[k + 2]);
    var c4 := StepWord(c3, vs[k + 3]);
    var c5 := StepWord(c4, vs[k + 4]);
    var c6 := StepWord(c5, vs[k + 5]);
    var c7 := StepWord(c6, vs[k + 6]);
    OneStep(c, vs, k);
    OneStep(c1, vs, k + 1);
    OneStep(c2, vs, k + 2);
    OneStep(c3, vs, k + 3);
    OneStep(c4, vs, k + 4);
    OneStep(c5, vs, k + 5);
    OneStep(c6, vs, k + 6);
    OneStep(c7, vs, k + 7);
  }

  lemma RegisterMoves(vs: seq<bv5>, c: bv30, k: nat, d: bv30)
    requires k + 8 <= |vs| && EightFrom(c, vs, k) == d
    ensures PolymodWord(c, vs[k..]) == PolymodWord(d, vs[k + 8..])
  {
    hide EightSteps, PolymodWord;
    EightStepsIs(c, vs, k);
  }
}
