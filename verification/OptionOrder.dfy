/** Orders of options: what reordering a list without reordering options of one kind keeps. */
module OptionOrder {
  import opened Cip30

  /** Options that set the same fields of a configuration. */
  predicate SameKind(x: VerifyOption, y: VerifyOption) {
    || (x.WithMessage? && y.WithMessage?)
    || (x.WithAddress? && y.WithAddress?)
    || (x.WithEmbeddedAddress? && y.WithEmbeddedAddress?)
    || (x.StrictAddress? && y.StrictAddress?)
  }

  /** Two neighbours of different kinds, at i and i + 1, change places. */
  predicate SwapsAt(p: seq<VerifyOption>, q: seq<VerifyOption>, i: nat) {
    && i + 1 < |p|
    && !SameKind(p[i], p[i + 1])
    && q == p[i := p[i + 1]][i + 1 := p[i]]
  }

  /** n such swaps turn p into q. */
  ghost predicate Reorders(p: seq<VerifyOption>, q: seq<VerifyOption>, n: nat)
    decreases n
  {
    if n == 0 then p == q else exists i: nat, mid :: SwapsAt(p, mid, i) && Reorders(mid, q, n - 1)
  }

  // ----- What swaps keep -----

  lemma {:induction false} AskedAppend(a: seq<VerifyOption>, b: seq<VerifyOption>)
    ensures Messages(a + b) == Messages(a) + Messages(b)
    ensures Supplies(a + b) == Supplies(a) + Supplies(b)
    decreases |b|
  {
    var n := |b|;
    if n == 0 {
      assert a + b == a;
    } else {
      AskedAppend(a, b[..n - 1]);
      assert (a + b)[..|a + b| - 1] == a + b[..n - 1];
    }
  }

  lemma AskedOfTwo(x: VerifyOption, y: VerifyOption)
    requires !SameKind(x, y)
    ensures Messages([x, y]) == Messages([y, x]) && Supplies([x, y]) == Supplies([y, x])
  {
    assert [x, y][..1] == [x] && [y, x][..1] == [y] && [x][..0] == [] && [y][..0] == [];
  }

  lemma SwapKeepsAsked(p: seq<VerifyOption>, q: seq<VerifyOption>, i: nat)
    requires SwapsAt(p, q, i)
    ensures Messages(p) == Messages(q) && Supplies(p) == Supplies(q)
    ensures forall x :: x in p <==> x in q
  {
    hide Messages, Supplies;
    var a, x, y, b := p[..i], p[i], p[i + 1], p[i + 2..];
    assert p == a + [x, y] + b && q == a + [y, x] + b;
    AskedOfTwo(x, y);
    AskedAppend(a + [x, y], b);
    AskedAppend(a, [x, y]);
    AskedAppend(a + [y, x], b);
    AskedAppend(a, [y, x]);
  }

  /** Every reordering asks for the same messages and addresses, in order, and flips the same switches. */
  lemma {:induction false} ReorderingKeepsAsked(p: seq<VerifyOption>, q: seq<VerifyOption>, n: nat)
    requires Reorders(p, q, n)
    ensures Messages(p) == Messages(q) && Supplies(p) == Supplies(q)
    ensures forall x :: x in p <==> x in q
    decreases n
  {
    if n > 0 {
      var i: nat, mid :| SwapsAt(p, mid, i) && Reorders(mid, q, n - 1);
      SwapKeepsAsked(p, mid, i);
      ReorderingKeepsAsked(mid, q, n - 1);
    }
  }

  // ----- Which lists are reorderings of each other -----

  /** The options of x's kind, in order. */
  function OfKind(x: VerifyOption, opts: seq<VerifyOption>): seq<VerifyOption> {
    if opts == [] then []
    else if SameKind(x, opts[0]) then [opts[0]] + OfKind(x, opts[1..])
    else OfKind(x, opts[1..])
  }

  lemma {:induction false} OfKindAppend(x: VerifyOption, a: seq<VerifyOption>, b: seq<VerifyOption>)
    ensures OfKind(x, a + b) == OfKind(x, a) + OfKind(x, b)
  {
    if a == [] {
      assert a + b == b;
    } else {
      OfKindAppend(x, a[1..], b);
      assert (a + b)[1..] == a[1..] + b;
    }
  }

  lemma SwapKeepsKinds(p: seq<VerifyOption>, q: seq<VerifyOption>, i: nat, z: VerifyOption)
    requires SwapsAt(p, q, i)
    ensures OfKind(z, p) == OfKind(z, q)
  {
    hide OfKind, SameKind;
    var a, x, y, b := p[..i], p[i], p[i + 1], p[i + 2..];
    assert p == a + ([x, y] + b) && q == a + ([y, x] + b);
    OfKindAppend(z, a, [x, y] + b);
    OfKindAppend(z, a, [y, x] + b);
    OfKindAppend(z, [x, y], b);
    OfKindAppend(z, [y, x], b);
    KindsOfTwo(x, y, z);
  }

  lemma KindsOfTwo(x: VerifyOption, y: VerifyOption, z: VerifyOption)
    requires !SameKind(x, y)
    ensures OfKind(z, [x, y]) == OfKind(z, [y, x])
  {
    assert [x, y][1..] == [y] && [y, x][1..] == [x] && [x][1..] == [] && [y][1..] == [];
  }

  lemma {:induction false} ReorderingKeepsKinds(p: seq<VerifyOption>, q: seq<VerifyOption>, n: nat, z: VerifyOption)
    requires Reorders(p, q, n)
    ensures OfKind(z, p) == OfKind(z, q)
    decreases n
  {
    if n > 0 {
      var i: nat, mid :| SwapsAt(p, mid, i) && Reorders(mid, q, n - 1);
      SwapKeepsKinds(p, mid, i, z);
      ReorderingKeepsKinds(mid, q, n - 1, z);
    }
  }

  lemma {:induction false} ReorderingsCompose(
      p: seq<VerifyOption>, q: seq<VerifyOption>, r: seq<VerifyOption>, m: nat, n: nat)
    requires Reorders(p, q, m) && Reorders(q, r, n)
    ensures Reorders(p, r, m + n)
    decreases m
  {
    if m > 0 {
      var i: nat, mid :| SwapsAt(p, mid, i) && Reorders(mid, q, m - 1);
      ReorderingsCompose(mid, q, r, m - 1, n);
    }
  }

  lemma NoSwaps(p: seq<VerifyOption>)
    ensures Reorders(p, p, 0)
  {
  }

  lemma SwapFirst(p: seq<VerifyOption>, mid: seq<VerifyOption>, q: seq<VerifyOption>, i: nat, n: nat)
    requires SwapsAt(p, mid, i) && Reorders(mid, q, n)
    ensures Reorders(p, q, n + 1)
  {
    hide SwapsAt;
    assert SwapsAt(p, mid, i) && Reorders(mid, q, n + 1 - 1);
  }

  lemma {:induction false} ReorderingUnderHead(x: VerifyOption, p: seq<VerifyOption>, q: seq<VerifyOption>, n: nat)
    requires Reorders(p, q, n)
    ensures Reorders([x] + p, [x] + q, n)
    decreases n
  {
    if n > 0 {
      var i: nat, mid :| SwapsAt(p, mid, i) && Reorders(mid, q, n - 1);
      assert SwapsAt([x] + p, [x] + mid, i + 1);
      ReorderingUnderHead(x, mid, q, n - 1);
    }
  }

  lemma SwapHead(x: VerifyOption, a: seq<VerifyOption>, b: seq<VerifyOption>)
    requires a != [] && !SameKind(x, a[0])
    ensures SwapsAt([x] + a + b, [a[0]] + ([x] + a[1..] + b), 0)
  {
    hide SameKind;
  }

  /** An option moves past a stretch that holds none of its kind. */
  lemma {:induction false} MovesPast(x: VerifyOption, a: seq<VerifyOption>, b: seq<VerifyOption>)
    requires forall y :: y in a ==> !SameKind(x, y)
    ensures Reorders([x] + a + b, a + [x] + b, |a|)
  {
    hide SameKind, Reorders;
    if a == [] {
      NoSwaps([x] + b);
      assert [x] + a + b == [x] + b && a + [x] + b == [x] + b;
    } else {
      var rest := a[1..];
      MovesPast(x, rest, b);
      ReorderingUnderHead(a[0], [x] + rest + b, rest + [x] + b, |rest|);
      assert [a[0]] + (rest + [x] + b) == a + [x] + b;
      SwapHead(x, a, b);
      SwapFirst([x] + a + b, [a[0]] + ([x] + rest + b), a + [x] + b, 0, |rest|);
    }
  }

  /** The place of the first option of x's kind. */
  lemma {:induction false} FirstOfKind(x: VerifyOption, opts: seq<VerifyOption>) returns (i: nat)
    requires OfKind(x, opts) != []
    ensures i < |opts| && opts[i] == OfKind(x, opts)[0]
    ensures forall y :: y in opts[..i] ==> !SameKind(x, y)
  {
    if SameKind(x, opts[0]) {
      i := 0;
    } else {
      var j := FirstOfKind(x, opts[1..]);
      i := j + 1;
      assert opts[..i] == [opts[0]] + opts[1..][..j];
    }
  }

  /** Taking out the first option of its kind takes it from the head of its own kind only. */
  lemma WithoutFirst(a: seq<VerifyOption>, x: VerifyOption, b: seq<VerifyOption>, z: VerifyOption)
    requires forall y :: y in a ==> !SameKind(x, y)
    ensures SameKind(z, x) ==> OfKind(z, a + [x] + b) == [x] + OfKind(z, a + b)
    ensures !SameKind(z, x) ==> OfKind(z, a + [x] + b) == OfKind(z, a + b)
  {
    OfKindAppend(z, a + [x], b);
    OfKindAppend(z, a, [x]);
    OfKindAppend(z, a, b);
    assert OfKind(z, [x]) == if SameKind(z, x) then [x] else [];
    if SameKind(z, x) {
      NoneOfKind(z, a);
    }
  }

  lemma KindsOfRest(
      x: VerifyOption, rest: seq<VerifyOption>, a: seq<VerifyOption>, b: seq<VerifyOption>, z: VerifyOption)
    requires forall y :: y in a ==> !SameKind(x, y)
    requires OfKind(z, [x] + rest) == OfKind(z, a + [x] + b)
    ensures OfKind(z, rest) == OfKind(z, a + b)
  {
    hide OfKind, SameKind;
    WithoutFirst(a, x, b, z);
    WithoutFirst([], x, rest, z);
    assert [] + [x] + rest == [x] + rest && [] + rest == rest;
    if SameKind(z, x) {
      assert ([x] + OfKind(z, rest))[1..] == ([x] + OfKind(z, a + b))[1..];
    }
  }

  lemma {:induction false} NoneOfKind(z: VerifyOption, a: seq<VerifyOption>)
    requires forall y :: y in a ==> !SameKind(z, y)
    ensures OfKind(z, a) == []
  {
    if a != [] {
      assert a[0] in a;
      NoneOfKind(z, a[1..]);
    }
  }

  /** The same options of each kind, in the same order. */
  ghost predicate SameWithinKinds(p: seq<VerifyOption>, q: seq<VerifyOption>) {
    forall z :: OfKind(z, p) == OfKind(z, q)
  }

  lemma OfOwnKind(x: VerifyOption, rest: seq<VerifyOption>)
    ensures OfKind(x, [x] + rest) == [x] + OfKind(x, rest)
  {
  }

  lemma OnlyEmptyHasNoKinds(p: seq<VerifyOption>, q: seq<VerifyOption>)
    requires SameWithinKinds(p, q)
    ensures p == [] <==> q == []
  {
    assert p != [] ==> OfKind(p[0], p) != [] && OfKind(p[0], p) == OfKind(p[0], q);
    assert q != [] ==> OfKind(q[0], q) != [] && OfKind(q[0], p) == OfKind(q[0], q);
  }

  lemma {:induction false} SameKindsReorder(p: seq<VerifyOption>, q: seq<VerifyOption>) returns (n: nat)
    requires SameWithinKinds(p, q)
    ensures Reorders(p, q, n)
    decreases |p|
  {
    hide SameKind, SwapsAt;
    OnlyEmptyHasNoKinds(p, q);
    if p == [] {
      n := 0;
    } else {
      var x, rest := p[0], p[1..];
      OfOwnKind(x, rest);
      assert p == [x] + rest && OfKind(x, p) == OfKind(x, q);
      var i := FirstOfKind(x, q);
      var a, b := q[..i], q[i + 1..];
      assert q == a + [x] + b;
      forall z ensures OfKind(z, rest) == OfKind(z, a + b) {
        KindsOfRest(x, rest, a, b, z);
      }
      var m := SameKindsReorder(rest, a + b);
      ReorderingUnderHead(x, rest, a + b, m);
      MovesPast(x, a, b);
      assert [x] + (a + b) == [x] + a + b;
      ReorderingsCompose(p, [x] + a + b, q, m, |a|);
      n := m + |a|;
    }
  }

  /** One list is a reordering of another exactly when it holds the same options of each kind in the same order. */
  lemma ReordersExactly(p: seq<VerifyOption>, q: seq<VerifyOption>)
    ensures (exists n: nat :: Reorders(p, q, n)) <==> SameWithinKinds(p, q)
  {
    if n: nat :| Reorders(p, q, n) {
      forall z ensures OfKind(z, p) == OfKind(z, q) {
        ReorderingKeepsKinds(p, q, n, z);
      }
    }
    if SameWithinKinds(p, q) {
      var n := SameKindsReorder(p, q);
    }
  }
}
