/** Which error every input of the two COSE decoders gets, from the items it holds. */
module CoseErrors {
  import opened Bytes
  import opened Cbor
  import opened Values
  import opened Cose

  // ----- COSE_Sign1 -----

  /** An integer under a key, as either of the two shapes it decodes to. */
  ghost predicate HasInteger(pairs: seq<(Value, Value)>, k: Value, n: int) {
    (0 <= n < 0x8000_0000_0000_0000 && (k, Uint64(n)) in pairs) || (k, Int64(n)) in pairs
  }

  /** A protected header that can be read: a byte string holding a strict map with an integer alg. */
  ghost predicate HeaderSays(e: Item, alg: int, address: Option<bytes>) {
    e.BStr? && exists prot :: Valid(prot) && e.bstr == Encode(prot) && ProtectedSays(prot, alg, address)
  }

  ghost predicate ProtectedSays(prot: Item, alg: int, address: Option<bytes>) {
    match Meaning(prot)
    case GoMap(header) =>
      && Strict(GoMap(header)) && HasInteger(header, Uint64(1), alg)
      && (match address
          case None => !HasKey(header, Text(ADDRESS))
          case Some(a) => (Text(ADDRESS), ByteSlice(a)) in header)
    case _ => false
  }

  lemma FieldsSay(header: seq<(Value, Value)>, alg: int, address: Option<bytes>)
    requires DistinctKeys(header)
    ensures ProtectedFields(header) == Success((alg, address)) <==>
            && HasInteger(header, Uint64(1), alg)
            && (match address
                case None => !HasKey(header, Text(ADDRESS))
                case Some(a) => (Text(ADDRESS), ByteSlice(a)) in header)
  {
    ReadingsAgree(header, Uint64(1));
    ReadingsAgree(header, Text(ADDRESS));
  }

  lemma ProtectedIs(prot: Item, alg: int, address: Option<bytes>)
    requires Valid(prot)
    ensures DecodeProtected(Encode(prot)) == Success((alg, address)) <==> ProtectedSays(prot, alg, address)
  {
    hide Encode, DecodeMap, Strict, ProtectedFields, HasInteger;
    DecodeMapWritten(prot);
    EmptyHeaderFails();
    if Meaning(prot).GoMap? && Strict(Meaning(prot)) {
      StrictIsDistinct(Meaning(prot).pairs);
      FieldsSay(Meaning(prot).pairs, alg, address);
    }
  }

  /** What decoding the first element and the header in it comes to. */
  function FirstElement(e: Item): Result<(int, Option<bytes>), CoseError>
    requires Valid(e)
  {
    match DecodeBytes(Encode(e))
    case None => Failure(InvalidProtected)
    case Some(raw) => DecodeProtected(Content(raw))
  }

  lemma FirstElementSays(e: Item, alg: int, address: Option<bytes>)
    requires Valid(e)
    ensures FirstElement(e) == Success((alg, address)) <==> HeaderSays(e, alg, address)
    ensures FirstElement(e).Failure? ==> FirstElement(e) == Failure(InvalidProtected)
  {
    hide Encode, DecodeProtected, ProtectedSays, Valid;
    UnmarshalExact(Encode(e), e);
    if e.BStr? {
      forall prot | Valid(prot) && e.bstr == Encode(prot)
        ensures DecodeProtected(e.bstr) == Success((alg, address)) <==> ProtectedSays(prot, alg, address)
      {
        ProtectedIs(prot, alg, address);
      }
      HeaderIsItem(e.bstr);
    } else {
      EmptyHeader();
    }
  }

  lemma HeaderIsItem(raw: bytes)
    ensures DecodeProtected(raw).Success? ==> exists prot :: Valid(prot) && raw == Encode(prot)
    ensures DecodeProtected(raw).Failure? ==> DecodeProtected(raw) == Failure(InvalidProtected)
  {
    if Unmarshal(raw).Some? {
      UnmarshalExact(raw, Unmarshal(raw).value);
    }
  }

  lemma EmptyHeader()
    ensures DecodeProtected([]) == Failure(InvalidProtected)
  {
    assert Unmarshal([]) == None;
  }

  lemma ElementsDecoded(w: Width, e: seq<Item>)
    requires |e| == 4 && Valid(Arr(w, e))
    ensures Valid(e[0]) && Valid(e[1]) && Valid(e[2]) && Valid(e[3])
    ensures DecodeSign1(Encode(Arr(w, e))) == DecodeElements(Encode(e[0]), Encode(e[1]), Encode(e[2]), Encode(e[3]))
  {
    hide Encode, DecodeElements;
    FourValid(e);
    SplitWritten(w, e);
  }

  predicate IsBytes(i: Item) {
    i.BStr? || i.Null?
  }

  function BytesOf(i: Item): Option<bytes> {
    if i.BStr? then Some(i.bstr) else None
  }

  lemma BytesAre(i: Item)
    requires Valid(i)
    ensures DecodeBytes(Encode(i)) == if IsBytes(i) then Some(BytesOf(i)) else None
  {
    hide Encode;
    UnmarshalExact(Encode(i), i);
  }

  lemma HashedErrors(i: Item)
    requires Valid(i)
    ensures DecodeHashed(Encode(i)).Failure? ==> DecodeHashed(Encode(i)) == Failure(InvalidUnprotected)
  {
  }

  /** The outcome for any four items, error or not: the checks in the order the source makes them. */
  lemma ElementErrors(w: Width, e: seq<Item>, alg: int, address: Option<bytes>, hashed: bool)
    requires |e| == 4 && Valid(Arr(w, e))
    ensures var r := DecodeSign1(Encode(Arr(w, e)));
            && ((forall n, a :: !HeaderSays(e[0], n, a)) ==> r == Failure(InvalidProtected))
            && (HeaderSays(e[0], alg, address) ==>
                  if alg != -8 then r == Failure(UnsupportedAlg) else
                  && ((forall h :: !CarriesHashed(e[1], h)) ==> r == Failure(InvalidUnprotected))
                  && (CarriesHashed(e[1], hashed) ==>
                        r == if !IsBytes(e[2]) then Failure(InvalidPayload)
                             else if !IsBytes(e[3]) then Failure(InvalidSignature)
                             else if |Content(BytesOf(e[3]))| != 64 then Failure(InvalidSignatureLen)
                             else Success(Sign1(Some(e[0].bstr), BytesOf(e[2]), e[3].bstr, -8, address, hashed))))
  {
    hide Encode, DecodeSign1, DecodeProtected, DecodeHashed, DecodeBytes, HeaderSays, CarriesHashed, Valid;
    ElementsDecoded(w, e);
    FirstElementSays(e[0], alg, address);
    BytesAre(e[0]);
    BytesAre(e[2]);
    BytesAre(e[3]);
    HashedErrors(e[1]);
    DecodeHashedExact(e[1], hashed);
    HeaderIsBytes(e[0], alg, address);
    if FirstElement(e[0]).Success? {
      FirstElementSays(e[0], FirstElement(e[0]).value.0, FirstElement(e[0]).value.1);
    }
    if DecodeHashed(Encode(e[1])).Success? {
      DecodeHashedExact(e[1], DecodeHashed(Encode(e[1])).value);
    }
  }

  lemma HeaderIsBytes(e: Item, alg: int, address: Option<bytes>)
    ensures HeaderSays(e, alg, address) ==> e.BStr?
  {
  }

  /** Every other input is no array of four whole items. */
  lemma NotFourElements(data: bytes)
    ensures DecodeSign1(data) == Failure(InvalidSign1) <==>
            !exists w, e :: |e| == 4 && Valid(Arr(w, e)) && data == Encode(Arr(w, e))
  {
    hide Encode, DecodeElements, Valid, SplitArray, Unmarshal;
    if SplitArray(data).Some? && |SplitArray(data).value| == 4 {
      SplitReads(data);
      OtherErrors(data);
    }
    forall w, e | |e| == 4 && Valid(Arr(w, e)) && data == Encode(Arr(w, e))
      ensures SplitArray(data).Some? && |SplitArray(data).value| == 4
    {
      ArrayIsValid(w, e);
      SplitWritten(w, e);
    }
  }

  lemma ArrayIsValid(w: Width, e: seq<Item>)
    requires Valid(Arr(w, e))
    ensures ValidAll(e)
  {
  }

  lemma OtherErrors(data: bytes)
    requires SplitArray(data).Some? && |SplitArray(data).value| == 4
    ensures DecodeSign1(data) != Failure(InvalidSign1)
  {
  }

  // ----- COSE_Key -----

  /** The entries of a map with labels that are integers or text, none of them twice; null has none. */
  ghost predicate HasEntries(i: Item, pairs: seq<(Value, Value)>) {
    match Meaning(i)
    case GoMap(p) =>
      && p == pairs
      && (forall i, j :: 0 <= i < j < |p| ==> p[i].0 != p[j].0)
      && (forall i :: 0 <= i < |p| ==> p[i].0.Uint64? || p[i].0.Int64? || p[i].0.Text?)
    case Nil => pairs == []
    case _ => false
  }

  /** An integer field: missing or null counts as 0. */
  ghost predicate IntegerIs(pairs: seq<(Value, Value)>, field: Value, n: int) {
    HasInteger(pairs, field, n) || (n == 0 && ((field, Nil) in pairs || !HasKey(pairs, field)))
  }

  /** A byte string field: missing or null counts as empty. */
  ghost predicate StringIs(pairs: seq<(Value, Value)>, field: Value, x: bytes) {
    (field, ByteSlice(x)) in pairs || (x == [] && ((field, Nil) in pairs || !HasKey(pairs, field)))
  }

  lemma FieldsRead(pairs: seq<(Value, Value)>, field: Value, n: int, x: bytes)
    requires DistinctKeys(pairs)
    ensures IntField(pairs, field) == Some(n) <==> IntegerIs(pairs, field, n)
    ensures BytesField(pairs, field) == Some(x) <==> StringIs(pairs, field, x)
  {
    ReadingsAgree(pairs, field);
  }

  /** The four fields of a key, if all of them are well typed. */
  ghost predicate KeySays(pairs: seq<(Value, Value)>, kty: int, alg: int, crv: int, x: bytes) {
    && IntegerIs(pairs, Uint64(1), kty) && IntegerIs(pairs, Uint64(3), alg) && IntegerIs(pairs, Int64(-1), crv)
    && StringIs(pairs, Int64(-2), x)
  }

  lemma CheckKeyErrors(pairs: seq<(Value, Value)>, kty: int, alg: int, crv: int, x: bytes)
    requires DistinctKeys(pairs)
    ensures (forall t, a, c, b :: !KeySays(pairs, t, a, c, b)) ==> CheckKey(pairs) == Failure(InvalidKey)
    ensures KeySays(pairs, kty, alg, crv, x) ==>
              CheckKey(pairs) == if kty != 1 then Failure(UnsupportedKeyType)
                                 else if alg != -8 then Failure(UnsupportedAlg)
                                 else if crv != 6 then Failure(UnsupportedCurve)
                                 else if |x| != 32 then Failure(InvalidPublicKeyLen)
                                 else Success(x)
  {
    hide IntField, BytesField, IntegerIs, StringIs;
    FieldsRead(pairs, Uint64(1), kty, x);
    FieldsRead(pairs, Uint64(3), alg, x);
    FieldsRead(pairs, Int64(-1), crv, x);
    FieldsRead(pairs, Int64(-2), 0, x);
    var t, a := IntField(pairs, Uint64(1)), IntField(pairs, Uint64(3));
    var c, b := IntField(pairs, Int64(-1)), BytesField(pairs, Int64(-2));
    if t.Some? && a.Some? && c.Some? && b.Some? {
      FieldsRead(pairs, Uint64(1), t.value, b.value);
      FieldsRead(pairs, Uint64(3), a.value, b.value);
      FieldsRead(pairs, Int64(-1), c.value, b.value);
      FieldsRead(pairs, Int64(-2), 0, b.value);
      assert KeySays(pairs, t.value, a.value, c.value, b.value);
    }
  }

  /** The outcome for any item in place of a key, error or not. */
  lemma KeyErrors(i: Item, pairs: seq<(Value, Value)>, kty: int, alg: int, crv: int, x: bytes)
    requires Valid(i)
    ensures var r := Cose.DecodeKey(Encode(i));
            && ((forall p :: !HasEntries(i, p)) ==> r == Failure(InvalidKey))
            && (HasEntries(i, pairs) && (forall t, a, c, b :: !KeySays(pairs, t, a, c, b)) ==>
                  r == Failure(InvalidKey))
            && (HasEntries(i, pairs) && KeySays(pairs, kty, alg, crv, x) ==>
                  r == if kty != 1 then Failure(UnsupportedKeyType)
                       else if alg != -8 then Failure(UnsupportedAlg)
                       else if crv != 6 then Failure(UnsupportedCurve)
                       else if |x| != 32 then Failure(InvalidPublicKeyLen)
                       else Success(x))
  {
    hide Encode, DecodeKeyMap, CheckKey, KeySays, Meaning;
    DecodeKeyMapWritten(i);
    if DecodeKeyMap(Encode(i)).Some? {
      assert HasEntries(i, DecodeKeyMap(Encode(i)).value);
    }
    if HasEntries(i, pairs) {
      CheckKeyErrors(pairs, kty, alg, crv, x);
    }
  }

  /** Every other input is no item at all. */
  lemma NoKeyItem(data: bytes)
    ensures (forall i :: Valid(i) ==> data != Encode(i)) ==> Cose.DecodeKey(data) == Failure(InvalidKey)
  {
    if Unmarshal(data).Some? {
      UnmarshalExact(data, Unmarshal(data).value);
    }
  }
}
