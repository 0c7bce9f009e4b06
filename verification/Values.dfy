/**
 * What a CBOR item decodes to when the target is Go's `any`, and the strict decode policy:
 * a map with two equal keys, at any depth, is refused.
 */
module Values {
  import opened Bytes
  import opened Cbor

  /**
   * Non-negative integers become uint64 and negative ones int64; a negative integer below the
   * int64 range is a big integer. A map keeps its entries in wire order.
   */
  datatype Value =
    | Uint64(u: nat)
    | Int64(i: int)
    | BigInt(big: int)
    | ByteSlice(b: bytes)
    | Text(s: bytes)
    | Slice(elements: seq<Value>)
    | GoMap(pairs: seq<(Value, Value)>)
    | Boolean(v: bool)
    | Nil

  const MAX_INT64 := 0x7fff_ffff_ffff_ffff

  function Meaning(i: Item): Value {
    match i
    case UInt(_, n) => Uint64(n)
    case NInt(_, n) => if n <= MAX_INT64 then Int64(-1 - n) else BigInt(-1 - n)
    case BStr(_, s) => ByteSlice(s)
    case TStr(_, s) => Text(s)
    case Arr(_, items) => Slice(MeaningAll(items))
    case Map(_, entries) => GoMap(Pairs(MeaningAll(entries)))
    case Bool(b) => Boolean(b)
    case Null => Nil
  }

  function MeaningAll(items: seq<Item>): (r: seq<Value>)
    ensures |r| == |items|
  {
    if items == [] then [] else [Meaning(items[0])] + MeaningAll(items[1..])
  }

  function Pairs(vs: seq<Value>): seq<(Value, Value)> {
    if |vs| < 2 then [] else [(vs[0], vs[1])] + Pairs(vs[2..])
  }

  // ----- Map readings -----

  function FirstWins(pairs: seq<(Value, Value)>, k: Value): Option<Value> {
    if pairs == [] then None
    else if pairs[0].0 == k then Some(pairs[0].1)
    else FirstWins(pairs[1..], k)
  }

  function LastWins(pairs: seq<(Value, Value)>, k: Value): Option<Value> {
    var n := |pairs|;
    if n == 0 then None
    else if pairs[n - 1].0 == k then Some(pairs[n - 1].1)
    else LastWins(pairs[..n - 1], k)
  }

  ghost predicate HasKey(pairs: seq<(Value, Value)>, k: Value) {
    exists v :: (k, v) in pairs
  }

  predicate DistinctKeys(pairs: seq<(Value, Value)>) {
    forall i, j :: 0 <= i < j < |pairs| ==> pairs[i].0 != pairs[j].0
  }

  lemma {:induction false} FirstWinsFinds(pairs: seq<(Value, Value)>, k: Value)
    ensures match FirstWins(pairs, k)
            case None => !HasKey(pairs, k)
            case Some(v) => (k, v) in pairs
  {
    if pairs != [] {
      FirstWinsFinds(pairs[1..], k);
      assert forall v :: (k, v) in pairs ==> (k, v) == pairs[0] || (k, v) in pairs[1..];
    }
  }

  lemma {:induction false} LastWinsFinds(pairs: seq<(Value, Value)>, k: Value)
    ensures match LastWins(pairs, k)
            case None => !HasKey(pairs, k)
            case Some(v) => (k, v) in pairs
  {
    var n := |pairs|;
    if n > 0 {
      LastWinsFinds(pairs[..n - 1], k);
      assert forall v :: (k, v) in pairs ==> (k, v) == pairs[n - 1] || (k, v) in pairs[..n - 1];
    }
  }

  lemma OneValuePerKey(pairs: seq<(Value, Value)>, k: Value, v: Value, w: Value)
    requires DistinctKeys(pairs) && (k, v) in pairs && (k, w) in pairs
    ensures v == w
  {
    var i :| 0 <= i < |pairs| && pairs[i] == (k, v);
    var j :| 0 <= j < |pairs| && pairs[j] == (k, w);
    assert pairs[i].0 == pairs[j].0;
  }

  /** With distinct keys both readings are the map the entries denote. */
  lemma ReadingsAgree(pairs: seq<(Value, Value)>, k: Value)
    requires DistinctKeys(pairs)
    ensures FirstWins(pairs, k) == LastWins(pairs, k)
    ensures forall v :: LastWins(pairs, k) == Some(v) <==> (k, v) in pairs
    ensures LastWins(pairs, k) == None <==> !HasKey(pairs, k)
  {
    FirstWinsFinds(pairs, k);
    LastWinsFinds(pairs, k);
    forall v, w | (k, v) in pairs && (k, w) in pairs ensures v == w {
      OneValuePerKey(pairs, k, v, w);
    }
  }

  /** Without that, the two readings of a repeated key are its first and its last value. */
  lemma {:induction false} DuplicatesDiverge(before: seq<(Value, Value)>, k: Value, v: Value,
      between: seq<(Value, Value)>, w: Value, after: seq<(Value, Value)>)
    requires !HasKey(before, k) && !HasKey(after, k)
    ensures FirstWins(before + [(k, v)] + between + [(k, w)] + after, k) == Some(v)
    ensures LastWins(before + [(k, v)] + between + [(k, w)] + after, k) == Some(w)
  {
    SkipBefore(before, k, [(k, v)] + between + [(k, w)] + after);
    assert before + ([(k, v)] + between + [(k, w)] + after) == before + [(k, v)] + between + [(k, w)] + after;
    SkipAfter(before + [(k, v)] + between + [(k, w)], k, after);
  }

  lemma {:induction false} SkipBefore(before: seq<(Value, Value)>, k: Value, rest: seq<(Value, Value)>)
    requires !HasKey(before, k)
    ensures FirstWins(before + rest, k) == FirstWins(rest, k)
  {
    if before == [] {
      assert before + rest == rest;
    } else {
      assert (before[0].0, before[0].1) in before;
      assert forall v :: (k, v) in before[1..] ==> (k, v) in before;
      SkipBefore(before[1..], k, rest);
      assert (before + rest)[1..] == before[1..] + rest;
    }
  }

  lemma {:induction false} SkipAfter(front: seq<(Value, Value)>, k: Value, after: seq<(Value, Value)>)
    requires !HasKey(after, k)
    ensures LastWins(front + after, k) == LastWins(front, k)
  {
    if after == [] {
      assert front + after == front;
    } else {
      var n := |after| - 1;
      assert (after[n].0, after[n].1) in after;
      assert forall v :: (k, v) in after[..n] ==> (k, v) in after;
      SkipAfter(front, k, after[..n]);
      assert (front + after)[..|front + after| - 1] == front + after[..n];
    }
  }

  // ----- Order of entries -----

  ghost predicate Reordered(p: seq<(Value, Value)>, q: seq<(Value, Value)>) {
    multiset(p) == multiset(q)
  }

  lemma ReorderedMembers(p: seq<(Value, Value)>, q: seq<(Value, Value)>)
    requires Reordered(p, q)
    ensures forall e :: e in p <==> e in q
  {
    assert forall e :: e in p <==> e in multiset(p);
    assert forall e :: e in q <==> e in multiset(q);
  }

  lemma TwiceMeansTwoPlaces(p: seq<(Value, Value)>, e: (Value, Value))
    requires multiset(p)[e] >= 2
    ensures !DistinctKeys(p)
  {
    var i :| 0 <= i < |p| && p[i] == e;
    assert p == p[..i] + [e] + p[i + 1..];
    assert e in multiset(p[..i] + p[i + 1..]);
    var j :| 0 <= j < |p[..i] + p[i + 1..]| && (p[..i] + p[i + 1..])[j] == e;
    var j' := if j < i then j else j + 1;
    assert p[j'] == e;
    if j' < i {
      assert p[j'].0 == p[i].0;
    } else {
      assert p[i].0 == p[j'].0;
    }
  }

  lemma TwoPlacesMeanTwice(p: seq<(Value, Value)>, i: nat, j: nat)
    requires i < j < |p| && p[i] == p[j]
    ensures multiset(p)[p[i]] >= 2
  {
    assert p == p[..j] + [p[j]] + p[j + 1..];
    assert p[i] == p[..j][i];
    assert p[i] in multiset(p[..j]);
  }

  lemma ReorderedDistinct(p: seq<(Value, Value)>, q: seq<(Value, Value)>)
    requires Reordered(p, q) && DistinctKeys(p)
    ensures DistinctKeys(q)
  {
    ReorderedMembers(p, q);
    forall i, j | 0 <= i < j < |q| ensures q[i].0 != q[j].0 {
      if q[i].0 == q[j].0 {
        assert q[i] in p && q[j] in p;
        OneValuePerKey(p, q[i].0, q[i].1, q[j].1);
        assert q[i] == q[j];
        TwoPlacesMeanTwice(q, i, j);
        TwiceMeansTwoPlaces(p, q[i]);
      }
    }
  }

  /** Neither the order of entries nor the reading that picks one changes what a key maps to. */
  lemma OrderIsIrrelevant(p: seq<(Value, Value)>, q: seq<(Value, Value)>, k: Value)
    requires Reordered(p, q) && DistinctKeys(p)
    ensures FirstWins(p, k) == LastWins(p, k) == FirstWins(q, k) == LastWins(q, k)
  {
    ReorderedDistinct(p, q);
    ReorderedMembers(p, q);
    ReadingsAgree(p, k);
    ReadingsAgree(q, k);
    if LastWins(p, k).Some? {
      assert (k, LastWins(p, k).value) in q;
    } else {
      assert !HasKey(q, k);
    }
  }

  // ----- The strict decode policy -----

  /** Values Go can use as map keys. */
  predicate Hashable(v: Value) {
    !v.Slice? && !v.GoMap? && !v.BigInt?
  }

  predicate Strict(v: Value) {
    match v
    case Slice(elements) => forall e | e in elements :: Strict(e)
    case GoMap(pairs) =>
      && DistinctKeys(pairs)
      && forall p | p in pairs :: Hashable(p.0) && Strict(p.1)
    case _ => true
  }

  /** u is v or lies somewhere inside it. */
  ghost predicate Within(u: Value, v: Value) {
    || u == v
    || match v
       case Slice(elements) => exists e | e in elements :: Within(u, e)
       case GoMap(pairs) => exists p | p in pairs :: Within(u, p.1)
       case _ => false
  }

  /** A map in which no two keys are equal and none is an array, a map or a big integer. */
  ghost predicate SoundMap(u: Value) {
    u.GoMap? ==>
      && (forall i, j :: 0 <= i < j < |u.pairs| ==> u.pairs[i].0 != u.pairs[j].0)
      && (forall p | p in u.pairs :: !p.0.Slice? && !p.0.GoMap? && !p.0.BigInt?)
  }

  /** The policy reaches every depth: a value passes exactly when every map within it is sound. */
  lemma {:induction false} StrictExactly(v: Value)
    ensures Strict(v) <==> forall u :: Within(u, v) ==> SoundMap(u)
  {
    match v
    case Slice(elements) =>
      forall e | e in elements ensures Strict(e) <==> forall u :: Within(u, e) ==> SoundMap(u) {
        StrictExactly(e);
      }
      assert forall e, u :: e in elements && Within(u, e) ==> Within(u, v);
    case GoMap(pairs) =>
      forall p | p in pairs ensures Strict(p.1) <==> forall u :: Within(u, p.1) ==> SoundMap(u) {
        StrictExactly(p.1);
      }
      assert forall p, u :: p in pairs && Within(u, p.1) ==> Within(u, v);
      assert Within(v, v);
    case _ =>
      assert Within(v, v);
  }

  /** Decoding a whole input into `any`. */
  function DecodeAny(data: bytes): Option<Value> {
    match Unmarshal(data)
    case None => None
    case Some(i) => if Strict(Meaning(i)) then Some(Meaning(i)) else None
  }

  /** Decoding into map[any]any: null leaves the nil map, which reads as empty. */
  function DecodeMap(data: bytes): Option<seq<(Value, Value)>> {
    match DecodeAny(data)
    case Some(GoMap(pairs)) => Some(pairs)
    case Some(Nil) => Some([])
    case _ => None
  }

  /** On every map the policy accepts, first-wins and last-wins readings agree on every key. */
  lemma StrictReadingsAgree(data: bytes, k: Value)
    requires DecodeMap(data).Some?
    ensures FirstWins(DecodeMap(data).value, k) == LastWins(DecodeMap(data).value, k)
  {
    ReadingsAgree(DecodeMap(data).value, k);
  }

  lemma StrictIsDistinct(pairs: seq<(Value, Value)>)
    requires Strict(GoMap(pairs))
    ensures DistinctKeys(pairs)
  {
  }

  /** Decoding into []byte: null leaves a nil slice. */
  function DecodeBytes(data: bytes): Option<Option<bytes>> {
    match Unmarshal(data)
    case Some(BStr(_, s)) => Some(Some(s))
    case Some(Null) => Some(None)
    case _ => None
  }

  lemma ReorderedStrict(p: seq<(Value, Value)>, q: seq<(Value, Value)>)
    requires Reordered(p, q)
    ensures Strict(GoMap(p)) <==> Strict(GoMap(q))
  {
    ReorderedMembers(p, q);
    if DistinctKeys(p) {
      ReorderedDistinct(p, q);
    }
    if DistinctKeys(q) {
      ReorderedDistinct(q, p);
    }
  }

  // ----- Integers -----

  /** Normalises the two integer shapes to int64; larger ones are refused, not wrapped. */
  function AsInt64(v: Option<Value>): Option<int> {
    match v
    case Some(Int64(n)) => Some(n)
    case Some(Uint64(n)) => if n > MAX_INT64 then None else Some(n)
    case _ => None
  }

  /** The integer an item denotes (RFC 8949, section 3.1). */
  function IntegerOf(i: Item): Option<int> {
    match i
    case UInt(_, n) => Some(n)
    case NInt(_, n) => Some(-1 - n)
    case _ => None
  }

  /** No two integers alias: exactly the int64 range comes through, unchanged. */
  lemma IntegersDoNotAlias(i: Item, v: int)
    ensures AsInt64(Some(Meaning(i))) == Some(v) <==>
            IntegerOf(i) == Some(v) && -0x8000_0000_0000_0000 <= v < 0x8000_0000_0000_0000
  {
  }

  /** Every int64 has an encoding, at every width that fits, that reads back as itself. */
  lemma Int64RoundTrip(v: int, w: Width)
    requires -0x8000_0000_0000_0000 <= v < 0x8000_0000_0000_0000
    requires Fits(w, if v >= 0 then v else -1 - v)
    ensures var i := if v >= 0 then UInt(w, v) else NInt(w, -1 - v);
            Valid(i) && DecodeAny(Encode(i)).Some? && AsInt64(DecodeAny(Encode(i))) == Some(v)
  {
    hide Encode, Unmarshal;
    var i := if v >= 0 then UInt(w, v) else NInt(w, -1 - v);
    UnmarshalExact(Encode(i), i);
  }
}
