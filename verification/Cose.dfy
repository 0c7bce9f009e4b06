/**
 * COSE_Sign1 and COSE_Key decoding and the Sig_structure that is signed (RFC 8152, sections 3,
 * 4.2, 4.4 and 7), as package cose does them.
 */
module Cose {
  import opened Bytes
  import opened Cbor
  import opened CborBytes
  import opened Values

  datatype CoseError =
    | InvalidSign1
    | InvalidProtected
    | InvalidUnprotected
    | UnsupportedAlg
    | InvalidPayload
    | InvalidSignature
    | InvalidSignatureLen
    | InvalidKey
    | UnsupportedKeyType
    | UnsupportedCurve
    | InvalidPublicKeyLen

  const ALG_EDDSA := -8
  const KEY_TYPE_OKP := 1
  const CURVE_ED25519 := 6
  const KEY_SIZE := 32
  const SIGNATURE_SIZE := 64

  // "address", "hashed" and "Signature1" in ASCII.
  const ADDRESS: bytes := [0x61, 0x64, 0x64, 0x72, 0x65, 0x73, 0x73]
  const HASHED: bytes := [0x68, 0x61, 0x73, 0x68, 0x65, 0x64]
  const CONTEXT: bytes := [0x53, 0x69, 0x67, 0x6e, 0x61, 0x74, 0x75, 0x72, 0x65, 0x31]

  const LABEL_ALG := Uint64(1)

  /** None stands for a nil slice. */
  datatype Sign1 = Sign1(protectedRaw: Option<bytes>, payload: Option<bytes>, signature: bytes,
                         alg: int, address: Option<bytes>, hashed: bool)

  function Content(b: Option<bytes>): bytes {
    if b.Some? then b.value else []
  }

  // ----- Decoding -----

  function DecodeProtected(raw: bytes): Result<(int, Option<bytes>), CoseError> {
    match DecodeMap(raw)
    case None => Failure(InvalidProtected)
    case Some(header) => ProtectedFields(header)
  }

  function ProtectedFields(header: seq<(Value, Value)>): Result<(int, Option<bytes>), CoseError> {
    match AsInt64(LastWins(header, LABEL_ALG))
    case None => Failure(InvalidProtected)
    case Some(alg) =>
      match LastWins(header, Text(ADDRESS))
      case None => Success((alg, None))
      case Some(ByteSlice(address)) => Success((alg, Some(address)))
      case Some(_) => Failure(InvalidProtected)
  }

  function DecodeHashed(raw: bytes): Result<bool, CoseError> {
    match DecodeMap(raw)
    case None => Failure(InvalidUnprotected)
    case Some(header) => HashedFlag(header)
  }

  function HashedFlag(header: seq<(Value, Value)>): Result<bool, CoseError> {
    match LastWins(header, Text(HASHED))
    case None => Success(false)
    case Some(Boolean(hashed)) => Success(hashed)
    case Some(_) => Failure(InvalidUnprotected)
  }

  function DecodeSign1(data: bytes): Result<Sign1, CoseError> {
    match SplitArray(data)
    case None => Failure(InvalidSign1)
    case Some(elements) =>
      if |elements| != 4 then Failure(InvalidSign1)
      else DecodeElements(elements[0], elements[1], elements[2], elements[3])
  }

  function DecodeElements(prot: bytes, unprot: bytes, payload: bytes, signature: bytes): Result<Sign1, CoseError> {
    match DecodeBytes(prot)
    case None => Failure(InvalidProtected)
    case Some(raw) =>
      Assemble(raw, DecodeProtected(Content(raw)), DecodeHashed(unprot), DecodeBytes(payload), DecodeBytes(signature))
  }

  /** The checks on the decoded elements, in the order they are made. */
  function Assemble(raw: Option<bytes>, prot: Result<(int, Option<bytes>), CoseError>,
                    hashed: Result<bool, CoseError>, payload: Option<Option<bytes>>,
                    signature: Option<Option<bytes>>): Result<Sign1, CoseError>
  {
    if prot.Failure? then Failure(prot.error)
    else if prot.value.0 != ALG_EDDSA then Failure(UnsupportedAlg)
    else if hashed.Failure? then Failure(hashed.error)
    else if payload.None? then Failure(InvalidPayload)
    else if signature.None? then Failure(InvalidSignature)
    else if |Content(signature.value)| != SIGNATURE_SIZE then Failure(InvalidSignatureLen)
    else Success(Sign1(raw, payload.value, Content(signature.value), prot.value.0, prot.value.1, hashed.value))
  }

  /**
   * The map of a COSE_Key decoded into a struct: labels are integers or text, no label repeats,
   * and values under labels the struct does not name are skipped.
   */
  function DecodeKeyMap(data: bytes): Option<seq<(Value, Value)>> {
    match Unmarshal(data)
    case None => None
    case Some(i) =>
      match Meaning(i)
      case GoMap(pairs) => if KeyLabels(pairs) then Some(pairs) else None
      case Nil => Some([])
      case _ => None
  }

  /** The struct reading (first-wins) and the map reading (last-wins) of an accepted key agree. */
  lemma KeyReadingsAgree(data: bytes, k: Value)
    requires DecodeKeyMap(data).Some?
    ensures FirstWins(DecodeKeyMap(data).value, k) == LastWins(DecodeKeyMap(data).value, k)
  {
    ReadingsAgree(DecodeKeyMap(data).value, k);
  }

  predicate KeyLabels(pairs: seq<(Value, Value)>) {
    DistinctKeys(pairs) && forall p | p in pairs :: p.0.Uint64? || p.0.Int64? || p.0.Text?
  }

  /** An int64 field: absent or null leaves zero; None is a type error. */
  function IntField(pairs: seq<(Value, Value)>, field: Value): Option<int> {
    match FirstWins(pairs, field)
    case None => Some(0)
    case Some(Nil) => Some(0)
    case v => AsInt64(v)
  }

  /** A []byte field: absent or null leaves nil. */
  function BytesField(pairs: seq<(Value, Value)>, field: Value): Option<bytes> {
    match FirstWins(pairs, field)
    case None => Some([])
    case Some(Nil) => Some([])
    case Some(ByteSlice(b)) => Some(b)
    case Some(_) => None
  }

  function DecodeKey(data: bytes): Result<bytes, CoseError> {
    match DecodeKeyMap(data)
    case None => Failure(InvalidKey)
    case Some(pairs) => CheckKey(pairs)
  }

  function CheckKey(pairs: seq<(Value, Value)>): Result<bytes, CoseError> {
    var kty, alg := IntField(pairs, Uint64(1)), IntField(pairs, Uint64(3));
    var crv, x := IntField(pairs, Int64(-1)), BytesField(pairs, Int64(-2));
    if kty.None? || alg.None? || crv.None? || x.None? then Failure(InvalidKey)
    else if kty.value != KEY_TYPE_OKP then Failure(UnsupportedKeyType)
    else if alg.value != ALG_EDDSA then Failure(UnsupportedAlg)
    else if crv.value != CURVE_ED25519 then Failure(UnsupportedCurve)
    else if |x.value| != KEY_SIZE then Failure(InvalidPublicKeyLen)
    else Success(x.value)
  }

  // ----- What an accepted COSE_Sign1 looks like on the wire -----

  /** A COSE_Sign1 as a signer may write it: any head widths, any items. */
  datatype Sign1Wire = Sign1Wire(outer: Width, protWidth: Width, prot: Item, unprot: Item,
                                 payload: Item, signature: Item)

  predicate ValidWire(w: Sign1Wire) {
    && Fits(w.outer, 4) && Valid(w.prot) && Fits(w.protWidth, |Encode(w.prot)|)
    && Valid(w.unprot) && Valid(w.payload) && Valid(w.signature)
  }

  function WireItem(w: Sign1Wire): (i: Item)
    requires ValidWire(w)
    ensures Valid(i)
  {
    var elements := [BStr(w.protWidth, Encode(w.prot)), w.unprot, w.payload, w.signature];
    FourValid(elements);
    Arr(w.outer, elements)
  }

  function EncodeSign1(w: Sign1Wire): bytes
    requires ValidWire(w)
  {
    Encode(WireItem(w))
  }

  lemma FourValid(e: seq<Item>)
    requires |e| == 4
    ensures ValidAll(e) <==> Valid(e[0]) && Valid(e[1]) && Valid(e[2]) && Valid(e[3])
    ensures ValidAll(e) ==> Encodings(e) == [Encode(e[0]), Encode(e[1]), Encode(e[2]), Encode(e[3])]
  {
    assert e[1..][1..] == e[2..] && e[2..][1..] == e[3..] && e[3..][1..] == [];
    assert ValidAll(e[3..]) <==> Valid(e[3]);
    assert ValidAll(e[2..]) <==> Valid(e[2]) && ValidAll(e[3..]);
    assert ValidAll(e[1..]) <==> Valid(e[1]) && ValidAll(e[2..]);
    if ValidAll(e) {
      assert Encodings(e[3..]) == [Encode(e[3])];
      assert Encodings(e[2..]) == [Encode(e[2]), Encode(e[3])];
      assert Encodings(e[1..]) == [Encode(e[1]), Encode(e[2]), Encode(e[3])];
    }
  }

  ghost predicate CarriesProtected(i: Item, address: Option<bytes>) {
    match Meaning(i)
    case GoMap(header) =>
      Strict(GoMap(header)) && HeaderCarries(header, address)
    case _ => false
  }

  ghost predicate CarriesHashed(i: Item, hashed: bool) {
    match Meaning(i)
    case GoMap(header) =>
      && Strict(GoMap(header))
      && ((Text(HASHED), Boolean(hashed)) in header || (!hashed && !HasKey(header, Text(HASHED))))
    case Nil => !hashed
    case _ => false
  }

  ghost predicate CarriesBytes(i: Item, b: Option<bytes>) {
    match b
    case None => i == Null
    case Some(s) => i.BStr? && i.bstr == s
  }

  /** The wire form says what the decoded signature says; membership only, no reading order. */
  ghost predicate Carries(w: Sign1Wire, s: Sign1)
    requires ValidWire(w)
  {
    && s.protectedRaw == Some(Encode(w.prot))
    && s.alg == ALG_EDDSA
    && CarriesProtected(w.prot, s.address)
    && CarriesHashed(w.unprot, s.hashed)
    && CarriesBytes(w.payload, s.payload)
    && CarriesBytes(w.signature, Some(s.signature))
    && |s.signature| == SIGNATURE_SIZE
  }

  lemma DecodeMapWritten(i: Item)
    requires Valid(i)
    ensures DecodeMap(Encode(i)) ==
            match Meaning(i)
            case GoMap(pairs) => if Strict(GoMap(pairs)) then Some(pairs) else None
            case Nil => Some([])
            case _ => None
  {
    UnmarshalExact(Encode(i), i);
  }

  ghost predicate HeaderCarries(header: seq<(Value, Value)>, address: Option<bytes>) {
    && (LABEL_ALG, Int64(ALG_EDDSA)) in header
    && match address
       case None => !HasKey(header, Text(ADDRESS))
       case Some(a) => (Text(ADDRESS), ByteSlice(a)) in header
  }

  lemma AlgIsInt64(v: Option<Value>)
    ensures AsInt64(v) == Some(ALG_EDDSA) <==> v == Some(Int64(ALG_EDDSA))
  {
    if v.Some? && v.value.Uint64? {
      assert v.value.u >= 0;
    }
  }

  lemma ProtectedFieldsExact(header: seq<(Value, Value)>, address: Option<bytes>)
    requires DistinctKeys(header)
    ensures ProtectedFields(header) == Success((ALG_EDDSA, address)) <==> HeaderCarries(header, address)
  {
    ReadingsAgree(header, LABEL_ALG);
    ReadingsAgree(header, Text(ADDRESS));
    AlgIsInt64(LastWins(header, LABEL_ALG));
  }

  /** A header passes the algorithm check exactly when its alg is the integer -8. */
  lemma DecodeProtectedExact(i: Item, address: Option<bytes>)
    requires Valid(i)
    ensures DecodeProtected(Encode(i)) == Success((ALG_EDDSA, address)) <==> CarriesProtected(i, address)
  {
    hide Encode, DecodeMap, Strict, ProtectedFields, HeaderCarries;
    DecodeMapWritten(i);
    EmptyHeaderFails();
    if Meaning(i).GoMap? && Strict(Meaning(i)) {
      StrictIsDistinct(Meaning(i).pairs);
      ProtectedFieldsExact(Meaning(i).pairs, address);
    }
  }

  lemma EmptyHeaderFails()
    ensures ProtectedFields([]).Failure?
  {
  }

  lemma DecodeHashedExact(i: Item, hashed: bool)
    requires Valid(i)
    ensures DecodeHashed(Encode(i)) == Success(hashed) <==> CarriesHashed(i, hashed)
  {
    hide Encode, DecodeMap, Strict;
    DecodeMapWritten(i);
    if Meaning(i).GoMap? && Strict(Meaning(i)) {
      StrictIsDistinct(Meaning(i).pairs);
      ReadingsAgree(Meaning(i).pairs, Text(HASHED));
    } else {
      assert LastWins([], Text(HASHED)) == None;
    }
  }

  lemma DecodeBytesExact(i: Item, b: Option<bytes>)
    requires Valid(i)
    ensures DecodeBytes(Encode(i)) == Some(b) <==> CarriesBytes(i, b)
  {
    UnmarshalExact(Encode(i), i);
  }

  lemma DecodeWire(w: Sign1Wire)
    requires ValidWire(w)
    ensures DecodeSign1(EncodeSign1(w)) ==
            Assemble(Some(Encode(w.prot)), DecodeProtected(Encode(w.prot)), DecodeHashed(Encode(w.unprot)),
                     DecodeBytes(Encode(w.payload)), DecodeBytes(Encode(w.signature)))
  {
    var i := WireItem(w);
    FourValid(i.items);
    SplitWritten(i.w, i.items);
    DecodeBytesExact(i.items[0], Some(Encode(w.prot)));
  }

  /** Decoding a written signature gives back exactly what it carries. */
  lemma DecodeSign1Written(w: Sign1Wire, s: Sign1)
    requires ValidWire(w)
    ensures DecodeSign1(EncodeSign1(w)) == Success(s) <==> Carries(w, s)
  {
    hide EncodeSign1, DecodeSign1, DecodeProtected, DecodeHashed, DecodeBytes, CarriesProtected, CarriesHashed;
    DecodeWire(w);
    DecodeProtectedExact(w.prot, s.address);
    DecodeHashedExact(w.unprot, s.hashed);
    DecodeBytesExact(w.payload, s.payload);
    DecodeBytesExact(w.signature, Some(s.signature));
    DecodeBytesExact(w.signature, None);
  }

  lemma ProtectedElementReads(e: Item) returns (prot: Item)
    requires Valid(e) && DecodeBytes(Encode(e)).Some?
    requires DecodeProtected(Content(DecodeBytes(Encode(e)).value)).Success?
    ensures e.BStr? && Valid(prot) && e.bstr == Encode(prot) && Fits(e.w, |Encode(prot)|)
  {
    UnmarshalExact(Encode(e), e);
    assert Unmarshal([]) == None;
    prot := Unmarshal(e.bstr).value;
    UnmarshalExact(e.bstr, prot);
  }

  lemma FourElements(data: bytes) returns (w: Width, e: seq<Item>)
    requires DecodeSign1(data).Success?
    ensures |e| == 4 && Valid(Arr(w, e)) && data == Encode(Arr(w, e)) && Fits(w, 4)
    ensures Valid(e[0]) && Valid(e[1]) && Valid(e[2]) && Valid(e[3])
    ensures DecodeBytes(Encode(e[0])).Some?
    ensures DecodeProtected(Content(DecodeBytes(Encode(e[0])).value)).Success?
  {
    hide DecodeBytes, DecodeProtected, SplitArray, Encode, Unmarshal;
    SplitReads(data);
    var i := Unmarshal(data).value;
    w, e := i.w, i.items;
    FourValid(e);
  }

  /** Every accepted input is a written signature, byte for byte. */
  lemma DecodeSign1Reads(data: bytes) returns (w: Sign1Wire)
    requires DecodeSign1(data).Success?
    ensures ValidWire(w) && data == EncodeSign1(w)
  {
    var outer, e := FourElements(data);
    hide DecodeSign1, DecodeProtected, DecodeBytes, Encode, Valid, Fits, EncodeSign1;
    var prot := ProtectedElementReads(e[0]);
    w := Sign1Wire(outer, e[0].w, prot, e[1], e[2], e[3]);
    FourAre(e, BStr(w.protWidth, Encode(w.prot)), w.unprot, w.payload, w.signature);
    WireIs(w, outer, e);
  }

  lemma FourAre(e: seq<Item>, a: Item, b: Item, c: Item, d: Item)
    requires |e| == 4 && e[0] == a && e[1] == b && e[2] == c && e[3] == d
    ensures e == [a, b, c, d]
  {
  }

  lemma WireIs(w: Sign1Wire, outer: Width, e: seq<Item>)
    requires ValidWire(w) && w.outer == outer
    requires e == [BStr(w.protWidth, Encode(w.prot)), w.unprot, w.payload, w.signature]
    ensures Valid(Arr(outer, e)) && EncodeSign1(w) == Encode(Arr(outer, e))
  {
    hide Encode;
    assert WireItem(w) == Arr(outer, e);
  }

  lemma DecodeSign1Exact(data: bytes, s: Sign1)
    ensures DecodeSign1(data) == Success(s) <==>
            exists w :: ValidWire(w) && data == EncodeSign1(w) && Carries(w, s)
  {
    if DecodeSign1(data) == Success(s) {
      var w := DecodeSign1Reads(data);
      DecodeSign1Written(w, s);
    }
    forall w | ValidWire(w) && data == EncodeSign1(w) && Carries(w, s)
      ensures DecodeSign1(data) == Success(s)
    {
      DecodeSign1Written(w, s);
    }
  }

  // ----- Order of entries and width of heads -----

  /** The same value, or the same map with its entries in another order. */
  ghost predicate SameMap(i: Item, j: Item) {
    || Meaning(i) == Meaning(j)
    || (Meaning(i).GoMap? && Meaning(j).GoMap? && Reordered(Meaning(i).pairs, Meaning(j).pairs))
  }

  lemma SameMapReads(i: Item, j: Item, k: Value)
    requires Valid(i) && Valid(j) && SameMap(i, j)
    ensures DecodeMap(Encode(i)).Some? <==> DecodeMap(Encode(j)).Some?
    ensures DecodeMap(Encode(i)).Some? ==>
              LastWins(DecodeMap(Encode(i)).value, k) == LastWins(DecodeMap(Encode(j)).value, k)
  {
    hide Encode, DecodeMap, Strict, Meaning;
    DecodeMapWritten(i);
    DecodeMapWritten(j);
    if Meaning(i) != Meaning(j) {
      ReorderedStrict(Meaning(i).pairs, Meaning(j).pairs);
      if Strict(Meaning(i)) {
        StrictIsDistinct(Meaning(i).pairs);
        OrderIsIrrelevant(Meaning(i).pairs, Meaning(j).pairs, k);
      }
    }
  }

  lemma SameProtected(i: Item, j: Item)
    requires Valid(i) && Valid(j) && SameMap(i, j)
    ensures DecodeProtected(Encode(i)) == DecodeProtected(Encode(j))
  {
    hide Encode, DecodeMap, LastWins, AsInt64;
    SameMapReads(i, j, LABEL_ALG);
    SameMapReads(i, j, Text(ADDRESS));
  }

  lemma SameHashed(i: Item, j: Item)
    requires Valid(i) && Valid(j) && SameMap(i, j)
    ensures DecodeHashed(Encode(i)) == DecodeHashed(Encode(j))
  {
    hide Encode, DecodeMap, LastWins;
    SameMapReads(i, j, Text(HASHED));
  }

  /**
   * Reordering header entries or changing head widths anywhere changes neither acceptance nor
   * the error nor any field read out; the verbatim protected bytes are the new ones.
   */
  lemma ReorderedHeaders(v: Sign1Wire, w: Sign1Wire)
    requires ValidWire(v) && ValidWire(w)
    requires SameMap(v.prot, w.prot) && SameMap(v.unprot, w.unprot)
    requires Meaning(v.payload) == Meaning(w.payload) && Meaning(v.signature) == Meaning(w.signature)
    ensures DecodeSign1(EncodeSign1(w)) ==
            match DecodeSign1(EncodeSign1(v))
            case Success(s) => Success(s.(protectedRaw := Some(Encode(w.prot))))
            case Failure(e) => Failure(e)
  {
    DecodeWire(v);
    DecodeWire(w);
    SameProtected(v.prot, w.prot);
    SameHashed(v.unprot, w.unprot);
    SameBytes(v.payload, w.payload);
    SameBytes(v.signature, w.signature);
    AssembleRaw(Some(Encode(v.prot)), Some(Encode(w.prot)), DecodeProtected(Encode(v.prot)),
                DecodeHashed(Encode(v.unprot)), DecodeBytes(Encode(v.payload)), DecodeBytes(Encode(v.signature)));
  }

  lemma AssembleRaw(r: Option<bytes>, r': Option<bytes>, prot: Result<(int, Option<bytes>), CoseError>,
                    hashed: Result<bool, CoseError>, payload: Option<Option<bytes>>,
                    signature: Option<Option<bytes>>)
    ensures Assemble(r', prot, hashed, payload, signature) ==
            match Assemble(r, prot, hashed, payload, signature)
            case Success(s) => Success(s.(protectedRaw := r'))
            case Failure(e) => Failure(e)
  {
  }

  lemma SameBytes(i: Item, j: Item)
    requires Valid(i) && Valid(j) && Meaning(i) == Meaning(j)
    ensures DecodeBytes(Encode(i)) == DecodeBytes(Encode(j))
  {
    UnmarshalExact(Encode(i), i);
    UnmarshalExact(Encode(j), j);
  }

  // ----- COSE_Key -----

  ghost predicate KeyPairs(pairs: seq<(Value, Value)>, x: bytes) {
    && (Uint64(1), Uint64(KEY_TYPE_OKP)) in pairs
    && (Uint64(3), Int64(ALG_EDDSA)) in pairs
    && (Int64(-1), Uint64(CURVE_ED25519)) in pairs
    && (Int64(-2), ByteSlice(x)) in pairs
    && |x| == KEY_SIZE
  }

  ghost predicate CarriesKey(i: Item, x: bytes) {
    match Meaning(i)
    case GoMap(pairs) => KeyLabels(pairs) && KeyPairs(pairs, x)
    case _ => false
  }

  lemma IntFieldIs(pairs: seq<(Value, Value)>, field: Value, n: int)
    requires DistinctKeys(pairs) && n != 0 && -MAX_INT64 <= n <= MAX_INT64
    requires forall m :: (field, Int64(m)) in pairs ==> m < 0
    ensures IntField(pairs, field) == Some(n) <==> (field, if n > 0 then Uint64(n) else Int64(n)) in pairs
  {
    ReadingsAgree(pairs, field);
  }

  /** Int64 values hold negative numbers only, as CBOR writes them. */
  lemma {:induction false} MeaningSigns(entries: seq<Item>, k: Value, n: int)
    requires (k, Int64(n)) in Pairs(MeaningAll(entries))
    ensures n < 0
    decreases |entries|
  {
    var vs := MeaningAll(entries);
    assert |vs| >= 2 && vs[0] == Meaning(entries[0]) && vs[1] == Meaning(entries[1]);
    if (k, Int64(n)) != (vs[0], vs[1]) {
      assert vs[2..] == MeaningAll(entries[2..]) by {
        assert vs[1..] == MeaningAll(entries[1..]);
        assert entries[1..][1..] == entries[2..] && vs[1..][1..] == vs[2..];
      }
      MeaningSigns(entries[2..], k, n);
    }
  }

  lemma DecodeKeyExact(data: bytes, x: bytes)
    ensures DecodeKey(data) == Success(x) <==>
            exists i :: Valid(i) && data == Encode(i) && CarriesKey(i, x)
  {
    forall i | Valid(i) && data == Encode(i)
      ensures DecodeKey(data) == Success(x) <==> CarriesKey(i, x)
    {
      DecodeKeyWritten(i, x);
    }
    if DecodeKey(data) == Success(x) {
      UnmarshalExact(data, Unmarshal(data).value);
    }
  }

  lemma DecodeKeyMapWritten(i: Item)
    requires Valid(i)
    ensures DecodeKeyMap(Encode(i)) ==
            match Meaning(i)
            case GoMap(pairs) => if KeyLabels(pairs) then Some(pairs) else None
            case Nil => Some([])
            case _ => None
  {
    UnmarshalExact(Encode(i), i);
  }

  lemma DecodeKeyWritten(i: Item, x: bytes)
    requires Valid(i)
    ensures DecodeKey(Encode(i)) == Success(x) <==> CarriesKey(i, x)
  {
    DecodeKeyMapWritten(i);
    if i.Map? && KeyLabels(Meaning(i).pairs) {
      forall k, n | (k, Int64(n)) in Meaning(i).pairs ensures n < 0 {
        MeaningSigns(i.entries, k, n);
      }
      CheckKeyExact(Meaning(i).pairs, x);
    }
  }

  lemma CheckKeyExact(pairs: seq<(Value, Value)>, x: bytes)
    requires DistinctKeys(pairs)
    requires forall k, n :: (k, Int64(n)) in pairs ==> n < 0
    ensures CheckKey(pairs) == Success(x) <==> KeyPairs(pairs, x)
  {
    hide IntField;
    IntFieldIs(pairs, Uint64(1), KEY_TYPE_OKP);
    IntFieldIs(pairs, Uint64(3), ALG_EDDSA);
    IntFieldIs(pairs, Int64(-1), CURVE_ED25519);
    ReadingsAgree(pairs, Int64(-2));
  }

  /** Reordering a COSE_Key or changing its head widths changes neither verdict nor key. */
  lemma ReorderedKey(i: Item, j: Item)
    requires Valid(i) && Valid(j) && SameMap(i, j)
    ensures DecodeKey(Encode(i)) == DecodeKey(Encode(j))
  {
    hide Encode, DecodeKeyMap, Meaning, CheckKey, KeyLabels;
    DecodeKeyMapWritten(i);
    DecodeKeyMapWritten(j);
    if Meaning(i) != Meaning(j) {
      ReorderedKeyPairs(Meaning(i).pairs, Meaning(j).pairs);
    }
  }

  lemma SameFields(p: seq<(Value, Value)>, q: seq<(Value, Value)>)
    requires FirstWins(p, Uint64(1)) == FirstWins(q, Uint64(1)) && FirstWins(p, Uint64(3)) == FirstWins(q, Uint64(3))
    requires FirstWins(p, Int64(-1)) == FirstWins(q, Int64(-1)) && FirstWins(p, Int64(-2)) == FirstWins(q, Int64(-2))
    ensures CheckKey(p) == CheckKey(q)
  {
  }

  lemma ReorderedKeyPairs(p: seq<(Value, Value)>, q: seq<(Value, Value)>)
    requires Reordered(p, q)
    ensures KeyLabels(p) <==> KeyLabels(q)
    ensures KeyLabels(p) ==> CheckKey(p) == CheckKey(q)
  {
    ReorderedMembers(p, q);
    if DistinctKeys(p) {
      ReorderedDistinct(p, q);
      OrderIsIrrelevant(p, q, Uint64(1));
      OrderIsIrrelevant(p, q, Uint64(3));
      OrderIsIrrelevant(p, q, Int64(-1));
      OrderIsIrrelevant(p, q, Int64(-2));
      SameFields(p, q);
    } else if DistinctKeys(q) {
      ReorderedDistinct(q, p);
    }
  }

  // ----- Sig_structure -----

  /** A byte string under the narrowest head; a nil slice is null; None when no head is wide enough. */
  function SliceItem(b: Option<bytes>): (i: Option<Item>)
    ensures i.Some? ==> Valid(i.value)
  {
    match b
    case None => Some(Null)
    case Some(s) =>
      match Shortest(|s|)
      case None => None
      case Some(w) => Some(BStr(w, s))
  }

  function SigItem(prot: Item, payload: Item): (i: Item)
    requires Valid(prot) && Valid(payload)
    ensures Valid(i)
  {
    var elements := [TStr(Inline, CONTEXT), prot, BStr(Inline, []), payload];
    FourValid(elements);
    Arr(Inline, elements)
  }

  /**
   * ["Signature1", protected, external_aad, payload]; a nil payload counts as empty. None is the
   * marshalling error.
   */
  function SigStructure(protectedRaw: Option<bytes>, payload: Option<bytes>): Option<bytes> {
    match (SliceItem(protectedRaw), SliceItem(Some(Content(payload))))
    case (Some(p), Some(y)) => Some(Encode(SigItem(p, y)))
    case _ => None
  }

  lemma SliceItemInjective(b: Option<bytes>, b': Option<bytes>)
    ensures SliceItem(b).Some? && SliceItem(b) == SliceItem(b') ==> b == b'
  {
  }

  /** Equal signed bytes mean equal protected bytes and, up to nil or empty, equal payloads. */
  lemma SigStructureInjective(p: Option<bytes>, y: Option<bytes>, p': Option<bytes>, y': Option<bytes>)
    requires SigStructure(p, y).Some?
    ensures SigStructure(p, y) == SigStructure(p', y') <==> p == p' && Content(y) == Content(y')
  {
    hide Encode, Valid, SliceItem;
    SliceItemInjective(p, p');
    SliceItemInjective(Some(Content(y)), Some(Content(y')));
    if SigStructure(p, y) == SigStructure(p', y') {
      var i := SigItem(SliceItem(p).value, SliceItem(Some(Content(y))).value);
      var j := SigItem(SliceItem(p').value, SliceItem(Some(Content(y'))).value);
      EncodeInjective(i, j);
      assert i.items[1] == j.items[1] && i.items[3] == j.items[3];
    }
  }

  lemma NilIsEmpty(p: Option<bytes>)
    ensures SigStructure(p, None) == SigStructure(p, Some([]))
  {
  }

  /** Marshalling fails exactly for slices no head is wide enough for. */
  lemma SigStructureDefined(p: Option<bytes>, y: Option<bytes>)
    ensures SigStructure(p, y).Some? <==>
            |Content(p)| < 0x1_0000_0000_0000_0000 && |Content(y)| < 0x1_0000_0000_0000_0000
  {
    assert Shortest(0).Some?;
  }

  /** What is signed, in numbers: 84, "Signature1", the protected header or null, 40 and the payload. */
  function SignedBytes(p: Option<bytes>, y: bytes): bytes {
    [0x84, 0x6a, 0x53, 0x69, 0x67, 0x6e, 0x61, 0x74, 0x75, 0x72, 0x65, 0x31]
    + (if p.Some? then WireBytes(p.value) else [0xf6]) + [0x40] + WireBytes(y)
  }

  lemma SigStructureLayout(p: Option<bytes>, y: Option<bytes>)
    requires |Content(p)| < 0x1_0000_0000_0000_0000 && |Content(y)| < 0x1_0000_0000_0000_0000
    ensures SigStructure(p, y) == Some(SignedBytes(p, Content(y)))
  {
    hide Encode, Shortest;
    SigStructureDefined(p, y);
    WireBytesAre(Content(p));
    WireBytesAre(Content(y));
    NullBytes();
    SigItemLayout(SliceItem(p).value, SliceItem(Some(Content(y))).value);
  }

  lemma NullBytes()
    ensures Encode(Null) == [0xf6]
  {
    ItemBytes(Null);
  }

  lemma FixedParts()
    ensures Valid(TStr(Inline, CONTEXT))
    ensures Encode(TStr(Inline, CONTEXT)) == [0x6a, 0x53, 0x69, 0x67, 0x6e, 0x61, 0x74, 0x75, 0x72, 0x65, 0x31]
    ensures Valid(BStr(Inline, [])) && Encode(BStr(Inline, [])) == [0x40]
  {
    hide Encode, Wire;
    ItemBytes(TStr(Inline, CONTEXT));
    ItemBytes(BStr(Inline, []));
    InlineBytes(0, CONTEXT, []);
    InlineBytes(0, [], []);
  }

  lemma SigItemLayout(p: Item, y: Item)
    requires Valid(p) && Valid(y)
    ensures Encode(SigItem(p, y)) ==
            [0x84, 0x6a, 0x53, 0x69, 0x67, 0x6e, 0x61, 0x74, 0x75, 0x72, 0x65, 0x31] + Encode(p) + [0x40] + Encode(y)
  {
    hide Encode, Valid;
    FixedParts();
    assert Valid(SigItem(p, y));
    ArrayBytes(TStr(Inline, CONTEXT), p, BStr(Inline, []), y);
  }

  /** Accepted protected headers are never nil or empty, so no null enters the signed bytes. */
  lemma AcceptedProtectedIsPresent(data: bytes)
    requires DecodeSign1(data).Success?
    ensures DecodeSign1(data).value.protectedRaw.Some?
    ensures |DecodeSign1(data).value.protectedRaw.value| > 0
    ensures |DecodeSign1(data).value.signature| == SIGNATURE_SIZE
  {
    var w := DecodeSign1Reads(data);
    DecodeSign1Written(w, DecodeSign1(data).value);
  }

  /**
   * Two spellings of one protected header decode to the same fields, and yet what is signed
   * differs as soon as the spellings do.
   */
  lemma SpellingIsSigned(v: Sign1Wire, w: Sign1Wire, payload: Option<bytes>)
    requires ValidWire(v) && ValidWire(w)
    requires SameMap(v.prot, w.prot) && v.unprot == w.unprot
    requires v.payload == w.payload && v.signature == w.signature
    requires DecodeSign1(EncodeSign1(v)).Success?
    ensures DecodeSign1(EncodeSign1(w)).Success?
    ensures var s, t := DecodeSign1(EncodeSign1(v)).value, DecodeSign1(EncodeSign1(w)).value;
            && s == t.(protectedRaw := s.protectedRaw)
            && (SigStructure(s.protectedRaw, payload).Some? ==>
                  (SigStructure(s.protectedRaw, payload) == SigStructure(t.protectedRaw, payload)
                   <==> v.prot == w.prot))
  {
    ReorderedHeaders(v, w);
    var s, t := DecodeSign1(EncodeSign1(v)).value, DecodeSign1(EncodeSign1(w)).value;
    DecodeSign1Written(v, s);
    if SigStructure(s.protectedRaw, payload).Some? {
      SigStructureInjective(s.protectedRaw, payload, t.protectedRaw, payload);
      if Encode(v.prot) == Encode(w.prot) {
        EncodeInjective(v.prot, w.prot);
      }
    }
  }
}
