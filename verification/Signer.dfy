/**
 * The encodings a wallet produces: the map shapes of CIP-8 under the narrowest heads. Decoding
 * undoes them, and Verify's verdict on them is the Ed25519 verdict.
 */
module Signer {
  import opened Bytes
  import opened Cbor
  import opened CborBytes
  import opened Values
  import opened Cose
  import opened Message
  import opened Addresses
  import opened Matching
  import opened Cip30
  import opened Verdict
  import opened Outcomes
  import AddressText
  import Bech32
  import Hex

  predicate Encodable(b: bytes) {
    Shortest(|b|).Some?
  }

  function Bytestring(b: bytes): (i: Item)
    requires Encodable(b)
    ensures Valid(i) && Meaning(i) == ByteSlice(b)
  {
    BStr(Shortest(|b|).value, b)
  }

  // ----- Literal maps -----

  lemma PairOf(k: Item, v: Item)
    ensures MeaningAll([k, v]) == [Meaning(k), Meaning(v)]
    ensures Pairs(MeaningAll([k, v])) == [(Meaning(k), Meaning(v))]
    ensures ValidAll([k, v]) <==> Valid(k) && Valid(v)
  {
    hide Meaning, Valid;
    assert [k, v][1..] == [v] && [v][1..] == [];
    assert MeaningAll([v]) == [Meaning(v)];
    assert ValidAll([v]) <==> Valid(v);
  }

  lemma {:induction false} MapAppend(a: seq<Item>, b: seq<Item>)
    requires |a| % 2 == 0
    ensures Pairs(MeaningAll(a + b)) == Pairs(MeaningAll(a)) + Pairs(MeaningAll(b))
    ensures ValidAll(a + b) <==> ValidAll(a) && ValidAll(b)
    decreases |a|
  {
    hide Meaning, Valid, MeaningAll, Pairs, ValidAll;
    if a == [] {
      NoPairs();
      assert a + b == b;
    } else {
      MapAppend(a[2..], b);
      SkipPair(a);
      SkipPair(a + b);
      assert (a + b)[2..] == a[2..] + b;
    }
  }

  lemma NoPairs()
    ensures Pairs(MeaningAll([])) == [] && ValidAll([])
  {
  }

  lemma SkipPair(a: seq<Item>)
    requires |a| >= 2
    ensures Pairs(MeaningAll(a)) == [(Meaning(a[0]), Meaning(a[1]))] + Pairs(MeaningAll(a[2..]))
    ensures ValidAll(a) <==> Valid(a[0]) && Valid(a[1]) && ValidAll(a[2..])
  {
    hide Meaning, Valid;
    assert a[1..][1..] == a[2..];
    var vs := MeaningAll(a);
    assert vs[1..] == MeaningAll(a[1..]) && vs[1..][1..] == vs[2..];
  }

  // ----- COSE_Sign1 -----

  function ProtectedEntries(address: bytes): seq<Item>
    requires Encodable(address)
  {
    [UInt(Inline, 1), NInt(Inline, 7)] + [TStr(Inline, ADDRESS), Bytestring(address)]
  }

  function UnprotectedEntries(hashed: bool): seq<Item> {
    [TStr(Inline, HASHED), Bool(hashed)]
  }

  function ProtectedItem(address: bytes): (i: Item)
    requires Encodable(address)
    ensures Valid(i)
    ensures Meaning(i) == GoMap([(LABEL_ALG, Int64(ALG_EDDSA)), (Text(ADDRESS), ByteSlice(address))])
  {
    PairOf(UInt(Inline, 1), NInt(Inline, 7));
    PairOf(TStr(Inline, ADDRESS), Bytestring(address));
    MapAppend([UInt(Inline, 1), NInt(Inline, 7)], [TStr(Inline, ADDRESS), Bytestring(address)]);
    assert Pairs(MeaningAll(ProtectedEntries(address))) ==
           [(LABEL_ALG, Int64(ALG_EDDSA)), (Text(ADDRESS), ByteSlice(address))];
    Map(Inline, ProtectedEntries(address))
  }

  function UnprotectedItem(hashed: bool): (i: Item)
    ensures Valid(i) && Meaning(i) == GoMap([(Text(HASHED), Boolean(hashed))])
  {
    PairOf(TStr(Inline, HASHED), Bool(hashed));
    Map(Inline, UnprotectedEntries(hashed))
  }

  predicate Signable(address: bytes, payload: Option<bytes>) {
    Encodable(address) && Encodable(Encode(ProtectedItem(address))) && Encodable(Content(payload))
  }

  lemma SignatureFits(signature: bytes)
    requires |signature| == SIGNATURE_SIZE
    ensures Valid(BStr(One, signature))
  {
    LimitValues();
  }

  /** {1: -8, "address": address}, {"hashed": hashed}, payload or null, signature. */
  function SignerWire(address: bytes, hashed: bool, payload: Option<bytes>, signature: bytes): (w: Sign1Wire)
    requires Signable(address, payload) && |signature| == SIGNATURE_SIZE
    ensures ValidWire(w)
  {
    SignatureFits(signature);
    hide Encode, ProtectedItem, UnprotectedItem, Shortest;
    var prot := ProtectedItem(address);
    Sign1Wire(Inline, Shortest(|Encode(prot)|).value, prot, UnprotectedItem(hashed),
              if payload.Some? then Bytestring(payload.value) else Null, BStr(One, signature))
  }

  /** Decoding undoes the wallet's encoding, for every address, flag, payload and signature. */
  lemma DecodeUndoesEncode(address: bytes, hashed: bool, payload: Option<bytes>, signature: bytes)
    requires Signable(address, payload) && |signature| == SIGNATURE_SIZE
    ensures var w := SignerWire(address, hashed, payload, signature);
            var s := Sign1(Some(Encode(ProtectedItem(address))), payload, signature, ALG_EDDSA, Some(address), hashed);
            Carries(w, s) && DecodeSign1(EncodeSign1(w)) == Success(s)
  {
    hide Encode, DecodeSign1, EncodeSign1;
    var w := SignerWire(address, hashed, payload, signature);
    var s := Sign1(Some(Encode(ProtectedItem(address))), payload, signature, ALG_EDDSA, Some(address), hashed);
    HeadersCarry(address, hashed);
    DecodeSign1Written(w, s);
  }

  lemma HeadersCarry(address: bytes, hashed: bool)
    requires Encodable(address)
    ensures CarriesProtected(ProtectedItem(address), Some(address))
    ensures CarriesHashed(UnprotectedItem(hashed), hashed)
  {
    hide Meaning, ProtectedItem, UnprotectedItem, Strict, HeaderCarries;
    ProtectedValues(address);
    UnprotectedValues(hashed);
  }

  lemma ProtectedValues(address: bytes)
    ensures var header := [(LABEL_ALG, Int64(ALG_EDDSA)), (Text(ADDRESS), ByteSlice(address))];
            Strict(GoMap(header)) && HeaderCarries(header, Some(address))
  {
    var header := [(LABEL_ALG, Int64(ALG_EDDSA)), (Text(ADDRESS), ByteSlice(address))];
    assert header[0] in header && header[1] in header;
  }

  lemma UnprotectedValues(hashed: bool)
    ensures var flags := [(Text(HASHED), Boolean(hashed))];
            Strict(GoMap(flags)) && flags[0] in flags
  {
  }

  // ----- COSE_Key -----

  function KeyEntries(x: bytes): seq<Item> {
    [UInt(Inline, 1), UInt(Inline, 1)] + ([UInt(Inline, 3), NInt(Inline, 7)]
    + ([NInt(Inline, 0), UInt(Inline, 6)] + [NInt(Inline, 1), BStr(One, x)]))
  }

  lemma KeyMeaning(x: bytes)
    requires |x| == KEY_SIZE
    ensures ValidAll(KeyEntries(x))
    ensures Pairs(MeaningAll(KeyEntries(x))) ==
            [(Uint64(1), Uint64(1)), (Uint64(3), Int64(-8)), (Int64(-1), Uint64(6)), (Int64(-2), ByteSlice(x))]
  {
    hide Pairs, MeaningAll, ValidAll;
    LimitValues();
    var kty, alg := [UInt(Inline, 1), UInt(Inline, 1)], [UInt(Inline, 3), NInt(Inline, 7)];
    var crv, key := [NInt(Inline, 0), UInt(Inline, 6)], [NInt(Inline, 1), BStr(One, x)];
    PairOf(kty[0], kty[1]);
    PairOf(alg[0], alg[1]);
    PairOf(crv[0], crv[1]);
    PairOf(key[0], key[1]);
    MapAppend(crv, key);
    MapAppend(alg, crv + key);
    MapAppend(kty, alg + (crv + key));
  }

  /** {1: 1, 3: -8, -1: 6, -2: x}. */
  function KeyItem(x: bytes): (i: Item)
    requires |x| == KEY_SIZE
    ensures Valid(i)
    ensures Meaning(i) == GoMap([(Uint64(1), Uint64(1)), (Uint64(3), Int64(-8)), (Int64(-1), Uint64(6)),
                                 (Int64(-2), ByteSlice(x))])
  {
    KeyMeaning(x);
    var entries := KeyEntries(x);
    assert |entries| == 8;
    Map(Inline, entries)
  }

  lemma DecodeUndoesKey(x: bytes)
    requires |x| == KEY_SIZE
    ensures CarriesKey(KeyItem(x), x) && Cose.DecodeKey(Encode(KeyItem(x))) == Success(x)
  {
    hide Encode, Cose.DecodeKey, KeyEntries;
    var pairs := Meaning(KeyItem(x)).pairs;
    assert pairs[0] in pairs && pairs[1] in pairs && pairs[2] in pairs && pairs[3] in pairs;
    DecodeKeyWritten(KeyItem(x), x);
  }

  // ----- The same, in numbers -----

  /** a2, 01 27, "address" and the address. */
  function HeaderBytes(address: bytes): bytes {
    [0xa2, 0x01, 0x27, 0x67, 0x61, 0x64, 0x64, 0x72, 0x65, 0x73, 0x73] + WireBytes(address)
  }

  /** 84, the header, a1 "hashed" and a flag, the payload or null, 58 40 and the signature. */
  function SignatureBytes(address: bytes, hashed: bool, payload: Option<bytes>, signature: bytes): bytes {
    [0x84] + WireBytes(HeaderBytes(address))
    + [0xa1, 0x66, 0x68, 0x61, 0x73, 0x68, 0x65, 0x64, if hashed then 0xf5 else 0xf4]
    + (if payload.Some? then WireBytes(payload.value) else [0xf6]) + ([0x58, 0x40] + signature)
  }

  function KeyBytes(x: bytes): bytes {
    [0xa4, 0x01, 0x01, 0x03, 0x27, 0x20, 0x06, 0x21, 0x58, 0x20] + x
  }

  lemma ItemsAre(address: bytes, hashed: bool, x: bytes)
    ensures Encodable(address) ==>
              ProtectedItem(address) ==
              Map(Inline, [UInt(Inline, 1), NInt(Inline, 7)] + [TStr(Inline, ADDRESS), Bytestring(address)])
    ensures UnprotectedItem(hashed) == Map(Inline, [TStr(Inline, HASHED), Bool(hashed)])
    ensures |x| == 32 ==> KeyItem(x) == Map(Inline, KeyEntries(x)) && |KeyEntries(x)| == 8
  {
    hide Meaning, MeaningAll, Pairs, Shortest;
  }

  lemma SimpleBytes(hashed: bool)
    ensures Wire(Bool(hashed)) == [if hashed then 0xf5 else 0xf4] && Wire(Null) == [0xf6]
  {
  }

  lemma HeaderIs(address: bytes)
    requires |address| < 0x1_0000_0000_0000_0000
    ensures Encodable(address) && Encode(ProtectedItem(address)) == HeaderBytes(address)
  {
    hide ProtectedItem, Encode, Shortest, Wire, WireAll, WireBytes, Valid, WireHead;
    WireBytesAre(address);
    ItemsAre(address, false, []);
    var a := Bytestring(address);
    ItemBytes(a);
    ItemBytes(ProtectedItem(address));
    assert [UInt(Inline, 1), NInt(Inline, 7)] + [TStr(Inline, ADDRESS), a]
        == [UInt(Inline, 1), NInt(Inline, 7), TStr(Inline, ADDRESS), a];
    WireFour(UInt(Inline, 1), NInt(Inline, 7), TStr(Inline, ADDRESS), a);
    InlineBytes(1, ADDRESS, [UInt(Inline, 1), NInt(Inline, 7), TStr(Inline, ADDRESS), a]);
    InlineBytes(7, [], []);
  }

  lemma FlagBytes(hashed: bool)
    ensures Encode(UnprotectedItem(hashed)) ==
            [0xa1, 0x66, 0x68, 0x61, 0x73, 0x68, 0x65, 0x64, if hashed then 0xf5 else 0xf4]
  {
    hide UnprotectedItem, Encode, Wire, WireAll, Valid, WireHead, UnprotectedEntries;
    ItemsAre([], hashed, []);
    ItemBytes(UnprotectedItem(hashed));
    SimpleBytes(hashed);
    WireTwo(TStr(Inline, HASHED), Bool(hashed));
    InlineBytes(0, HASHED, [TStr(Inline, HASHED), Bool(hashed)]);
  }

  lemma SignatureItemBytes(signature: bytes)
    requires |signature| == 64
    ensures Valid(BStr(One, signature)) && Encode(BStr(One, signature)) == [0x58, 0x40] + signature
  {
    hide Wire, Encode;
    SignatureFits(signature);
    ItemBytes(BStr(One, signature));
    OneByteBytes(signature);
  }

  function PayloadItem(payload: Option<bytes>): Item
    requires Encodable(Content(payload))
  {
    if payload.Some? then Bytestring(payload.value) else Null
  }

  lemma PayloadBytes(payload: Option<bytes>)
    requires |Content(payload)| < 0x1_0000_0000_0000_0000
    ensures Encodable(Content(payload)) && Valid(PayloadItem(payload))
    ensures Encode(PayloadItem(payload)) == if payload.Some? then WireBytes(payload.value) else [0xf6]
  {
    hide Encode, WireBytes;
    NullBytes();
    WireBytesAre(Content(payload));
  }

  lemma SignableInNumbers(address: bytes, payload: Option<bytes>)
    requires |address| + 20 < 0x1_0000_0000_0000_0000 && |Content(payload)| < 0x1_0000_0000_0000_0000
    ensures Signable(address, payload)
    ensures var h := HeaderBytes(address); Encode(BStr(Shortest(|h|).value, h)) == WireBytes(h)
  {
    hide ProtectedItem, Encode;
    HeaderIs(address);
    assert |WireBytes(address)| <= |address| + 9;
    WireBytesAre(HeaderBytes(address));
    WireBytesAre(Content(payload));
  }

  lemma WireOfSigner(address: bytes, hashed: bool, payload: Option<bytes>, signature: bytes)
    requires Signable(address, payload) && |signature| == 64
    requires Encode(ProtectedItem(address)) == HeaderBytes(address)
    ensures var h := HeaderBytes(address);
            SignerWire(address, hashed, payload, signature) ==
            Sign1Wire(Inline, Shortest(|h|).value, ProtectedItem(address), UnprotectedItem(hashed),
                      PayloadItem(payload), BStr(One, signature))
  {
    hide ProtectedItem, UnprotectedItem, Encode, Shortest, HeaderBytes;
  }

  /** A wallet's signature, byte for byte, and what is decoded from those bytes. */
  lemma SignerBytes(address: bytes, hashed: bool, payload: Option<bytes>, signature: bytes)
    requires |address| + 20 < 0x1_0000_0000_0000_0000 && |Content(payload)| < 0x1_0000_0000_0000_0000
    requires |signature| == 64
    ensures Signable(address, payload)
    ensures EncodeSign1(SignerWire(address, hashed, payload, signature)) ==
            SignatureBytes(address, hashed, payload, signature)
    ensures DecodeSign1(SignatureBytes(address, hashed, payload, signature)) ==
            Success(Sign1(Some(HeaderBytes(address)), payload, signature, -8, Some(address), hashed))
  {
    hide Encode, DecodeSign1, HeaderBytes, WireBytes, ProtectedItem, UnprotectedItem, SignerWire, Shortest, Valid;
    HeaderIs(address);
    SignableInNumbers(address, payload);
    WireOfSigner(address, hashed, payload, signature);
    DecodeUndoesEncode(address, hashed, payload, signature);
    FlagBytes(hashed);
    PayloadBytes(payload);
    SignatureItemBytes(signature);
    var h := HeaderBytes(address);
    var prot := BStr(Shortest(|h|).value, h);
    WireBytesAre(h);
    FourValid([prot, UnprotectedItem(hashed), PayloadItem(payload), BStr(One, signature)]);
    FourFit([prot, UnprotectedItem(hashed), PayloadItem(payload), BStr(One, signature)]);
    ArrayBytes(prot, UnprotectedItem(hashed), PayloadItem(payload), BStr(One, signature));
  }

  lemma KeyHalves(x: bytes)
    requires |x| == 32
    ensures WireAll(KeyEntries(x)) == [0x01, 0x01, 0x03, 0x27, 0x20, 0x06, 0x21, 0x58, 0x20] + x
  {
    hide Wire, WireAll;
    var kty, alg := [UInt(Inline, 1), UInt(Inline, 1)], [UInt(Inline, 3), NInt(Inline, 7)];
    var crv, key := [NInt(Inline, 0), UInt(Inline, 6)], [NInt(Inline, 1), BStr(One, x)];
    WireAppend(kty, alg + (crv + key));
    WireAppend(alg, crv + key);
    WireAppend(crv, key);
    WireTwo(UInt(Inline, 1), UInt(Inline, 1));
    WireTwo(UInt(Inline, 3), NInt(Inline, 7));
    WireTwo(NInt(Inline, 0), UInt(Inline, 6));
    WireTwo(NInt(Inline, 1), BStr(One, x));
    InlineBytes(0, [], []);
    InlineBytes(1, [], []);
    InlineBytes(3, [], []);
    InlineBytes(6, [], []);
    InlineBytes(7, [], []);
    OneByteBytes(x);
  }

  /** A wallet's key, byte for byte, and what is decoded from those bytes. */
  lemma SignerKeyBytes(x: bytes)
    requires |x| == 32
    ensures Encode(KeyItem(x)) == KeyBytes(x) && Cose.DecodeKey(KeyBytes(x)) == Success(x)
  {
    hide Cose.DecodeKey, Encode, KeyItem, KeyBytes;
    DecodeUndoesKey(x);
    KeyIs(x);
  }

  lemma KeyIs(x: bytes)
    requires |x| == 32
    ensures Encode(KeyItem(x)) == KeyBytes(x)
  {
    hide Encode, KeyItem, KeyEntries, Wire, WireAll, Valid, Meaning;
    ItemsAre([], false, x);
    ItemBytes(KeyItem(x));
    InlineBytes(0, [], KeyEntries(x));
    KeyHalves(x);
  }

  // ----- The verdict on what a wallet made -----

  function WalletResult(address: bytes, hashed: bool, payload: Option<bytes>, signature: bytes, x: bytes): DataSignature
    requires Signable(address, payload) && |signature| == SIGNATURE_SIZE && |x| == KEY_SIZE
  {
    DataSignature(Hex.Encode(EncodeSign1(SignerWire(address, hashed, payload, signature))),
                  Hex.Encode(Encode(KeyItem(x))))
  }

  /** The text of an address as a caller may supply it: its bech32 or its hex spelling. */
  ghost predicate Spelt(lib: Library, text: bytes, address: bytes) {
    && ParseValue(address).Success?
    && var v := ParseValue(address).value;
       Bech32Spelling(lib.checksums, text, v) || HexSpelling(lib.checksums, text, v)
  }

  /**
   * What Verify says of what a wallet made, with the digest of a message embedded or detached and
   * under any options that ask for that message: the Ed25519 verdict over the Sig_structure of
   * the wallet's own protected header and that digest and, when an address is asked for, whether
   * the key controls it.
   */
  lemma WalletVerdict(lib: Library, opts: seq<VerifyOption>, m: bytes, address: bytes, hashed: bool, detached: bool,
      signature: bytes, x: bytes)
    requires Signable(address, Some(Digest(lib, m, hashed)))
    requires |signature| == SIGNATURE_SIZE && |x| == KEY_SIZE
    requires OptionsValue(opts).Success? && ConfigOf(opts).hasMessage && ConfigOf(opts).message == m
    requires ConfigOf(opts).hasAddress ==> Spelt(lib, ConfigOf(opts).address, address)
    requires ConfigOf(opts).useEmbedded ==> ParseValue(address).Success?
    ensures var d, cfg := Digest(lib, m, hashed), ConfigOf(opts);
            var ds := WalletResult(address, hashed, if detached then None else Some(d), signature, x);
            var signed := SigStructure(Some(Encode(ProtectedItem(address))), Some(d));
            && Signable(address, None)
            && signed.Some?
            && VerifyValue(lib, ds, opts).Success?
            && (VerifyValue(lib, ds, opts).value.Valid() <==>
                && lib.ed25519(x, signed.value, signature)
                && (cfg.hasAddress || cfg.useEmbedded ==>
                      Controls(lib.hash224(x), ParseValue(address).value, cfg.strict)))
  {
    hide Encode, DecodeSign1, EncodeSign1, Cose.DecodeKey, Cip30.Parse, Hex.Encode, SignerWire, KeyItem, ProtectedItem,
         Carries, CarriesKey, SigStructure, VerifyValue, Digest, ConfigOf, ParseValue, Controls, WantedAddress;
    var d := Digest(lib, m, hashed);
    var payload := if detached then None else Some(d);
    var ds := WalletResult(address, hashed, payload, signature, x);
    assert Shortest(0) == Some(Inline);
    SignedIsDefined(Encode(ProtectedItem(address)), d);
    WalletParses(address, hashed, payload, signature, x);
    WalletAddress(lib, Cip30.Parse(ds).value, address, ConfigOf(opts));
    ValidExactly(lib, ds, opts);
    SucceedsWithAddress(lib, ds, opts);
  }

  lemma WalletParses(address: bytes, hashed: bool, payload: Option<bytes>, signature: bytes, x: bytes)
    requires Signable(address, payload) && |signature| == SIGNATURE_SIZE && |x| == KEY_SIZE
    ensures Cip30.Parse(WalletResult(address, hashed, payload, signature, x)) ==
            Success(Signature(x, payload, hashed, Some(address), Some(Encode(ProtectedItem(address))), signature))
  {
    hide Encode, DecodeSign1, EncodeSign1, Cose.DecodeKey, Cip30.Parse, Hex.Encode, SignerWire, KeyItem, ProtectedItem,
         Carries, CarriesKey;
    var w := SignerWire(address, hashed, payload, signature);
    DecodeUndoesEncode(address, hashed, payload, signature);
    DecodeUndoesKey(x);
    Hex.EncodeIsLowerDigits(EncodeSign1(w));
    Hex.EncodeIsLowerDigits(Encode(KeyItem(x)));
    ProtectedOfWire(address, hashed, payload, signature);
    ParseWritten(WalletResult(address, hashed, payload, signature, x), w,
      Sign1(Some(Encode(ProtectedItem(address))), payload, signature, ALG_EDDSA, Some(address), hashed), KeyItem(x), x);
  }

  lemma ProtectedOfWire(address: bytes, hashed: bool, payload: Option<bytes>, signature: bytes)
    requires Signable(address, payload) && |signature| == SIGNATURE_SIZE
    ensures SignerWire(address, hashed, payload, signature).prot == ProtectedItem(address)
  {
  }

  lemma SignedIsDefined(p: bytes, d: bytes)
    requires Encodable(p) && Encodable(d)
    ensures SigStructure(Some(p), Some(d)).Some?
  {
  }

  /** Supplied or embedded, the address asked for is the wallet's. */
  lemma WalletAddress(lib: Library, s: Signature, address: bytes, cfg: Config)
    requires s.address == Some(address)
    requires cfg.hasAddress ==> Spelt(lib, cfg.address, address)
    requires cfg.useEmbedded ==> ParseValue(address).Success?
    ensures cfg.hasAddress || cfg.useEmbedded ==> WantedAddress(lib, s, cfg) == ParseValue(address)
  {
    hide DecodeValue, ParseValue, Bech32Spelling, HexSpelling;
    if cfg.hasAddress {
      var v := ParseValue(address).value;
      ParseKeepsRaw(address, v);
      DecodeAccepts(lib.checksums, cfg.address, v);
    }
  }

  lemma SucceedsWithAddress(lib: Library, ds: DataSignature, opts: seq<VerifyOption>)
    requires OptionsValue(opts).Success? && Cip30.Parse(ds).Success?
    requires var cfg := ConfigOf(opts);
             cfg.hasAddress || cfg.useEmbedded ==> WantedAddress(lib, Cip30.Parse(ds).value, cfg).Success?
    ensures VerifyValue(lib, ds, opts).Success?
  {
    hide Cip30.Parse, ConfigOf, WantedAddress;
    AddressVerdict(lib, Cip30.Parse(ds).value, ConfigOf(opts));
  }

  // ----- Signing in with an address -----

  /** The options that ask for a message and for an address, supplied as text or the embedded one. */
  function LoginOptions(m: bytes, text: Option<bytes>, strict: bool): seq<VerifyOption> {
    [WithMessage(m), if text.Some? then WithAddress(text.value) else WithEmbeddedAddress] + StrictOption(strict)
  }

  lemma LoginConfig(m: bytes, text: Option<bytes>, strict: bool)
    ensures OptionsValue(LoginOptions(m, text, strict)) ==
            Success(Config(m, true, if text.Some? then text.value else [], text.Some?, text.None?, strict))
  {
    var wanted := if text.Some? then WithAddress(text.value) else WithEmbeddedAddress;
    assert [WithMessage(m)][..0] == [] && Messages([]) == [] && Supplies([]) == [];
    assert [WithMessage(m), wanted][..1] == [WithMessage(m)];
    assert Messages([WithMessage(m)]) == [m] && Supplies([WithMessage(m)]) == [];
    assert Messages([WithMessage(m), wanted]) == [m];
    assert Supplies([WithMessage(m), wanted]) == if text.Some? then [text.value] else [];
    if strict {
      assert LoginOptions(m, text, strict) == [WithMessage(m), wanted, StrictAddress];
      assert [WithMessage(m), wanted, StrictAddress][..2] == [WithMessage(m), wanted];
    } else {
      assert LoginOptions(m, text, strict) == [WithMessage(m), wanted];
    }
  }

  /**
   * From a wallet's bytes through bech32 to the verdict: for every canonical address of either
   * network, given in bech32 or embedded, the result is valid exactly when the Ed25519 check holds
   * and the hash of the key sits in the address where the policy looks for it.
   */
  lemma LoginVerdict(lib: Library, m: bytes, address: bytes, supplied: bool, t: Bech32.state, strict: bool,
      hashed: bool, detached: bool, signature: bytes, x: bytes)
    requires Signable(address, Some(Digest(lib, m, hashed)))
    requires |signature| == SIGNATURE_SIZE && |x| == KEY_SIZE
    requires ParseValue(address).Success?
    requires supplied ==> t in lib.checksums && ParseValue(address).value.network <= 1
    ensures var d, v, h := Digest(lib, m, hashed), ParseValue(address).value, lib.hash224(x);
            var text := if !supplied then None
                        else Some(Bech32.Encode(t, PrefixOf(v.network, IsReward(v.addrType)).value, address));
            var ds := WalletResult(address, hashed, if detached then None else Some(d), signature, x);
            var signed := SigStructure(Some(Encode(ProtectedItem(address))), Some(d));
            var result := VerifyValue(lib, ds, LoginOptions(m, text, strict));
            && signed.Some?
            && result.Success?
            && (result.value.Valid() <==>
                && lib.ed25519(x, signed.value, signature)
                && (PaymentKeyMatches(address, h)
                    || (StakeKeyMatches(address, h) && (!strict || address[0] / 16 == 14))))
  {
    hide Encode, WalletResult, ProtectedItem, SigStructure, VerifyValue, Digest, ConfigOf, ParseValue, Controls,
         Bech32.Encode, LoginOptions, DecodeValue, Bech32Spelling, HexSpelling, PaymentKeyMatches, StakeKeyMatches;
    var v := ParseValue(address).value;
    var text := if !supplied then None
                else Some(Bech32.Encode(t, PrefixOf(v.network, IsReward(v.addrType)).value, address));
    LoginConfig(m, text, strict);
    if supplied {
      CanonicalRoundTrip(lib.checksums, t, address);
      DecodeAccepts(lib.checksums, text.value, v);
    }
    WalletVerdict(lib, LoginOptions(m, text, strict), m, address, hashed, detached, signature, x);
    ControlledBytes(address, lib.hash224(x), strict);
  }

  lemma ControlledBytes(raw: bytes, keyHash: bytes, strict: bool)
    requires ParseValue(raw).Success?
    ensures Controls(keyHash, ParseValue(raw).value, strict) <==>
            PaymentKeyMatches(raw, keyHash) || (StakeKeyMatches(raw, keyHash) && (!strict || raw[0] / 16 == 14))
  {
  }

  /**
   * The whole path in numbers: the bytes a wallet makes, spelled in hex in any letter case, and
   * any options that ask for a message. No function of the library is named in what is promised.
   */
  lemma LoginInNumbers(lib: Library, ds: DataSignature, opts: seq<VerifyOption>, address: bytes, hashed: bool,
      payload: Option<bytes>, signature: bytes, x: bytes)
    requires |address| + 20 < 0x1_0000_0000_0000_0000 && |Content(payload)| < 0x1_0000_0000_0000_0000
    requires |signature| == 64 && |x| == 32
    requires Hex.SpelledInHex(ds.signature, SignatureBytes(address, hashed, payload, signature))
    requires Hex.SpelledInHex(ds.key, KeyBytes(x))
    requires OptionsValue(opts).Success? && ConfigOf(opts).hasMessage
    ensures var m, cfg, h, y := ConfigOf(opts).message, ConfigOf(opts), HeaderBytes(address), Content(payload);
            (VerifyValue(lib, ds, opts).Success? && VerifyValue(lib, ds, opts).value.Valid()) <==>
            && (y != [] ==> StandsFor(lib, m, hashed, y) && SignedOver(lib, x, Some(h), y, signature))
            && (y == [] ==> exists d :: StandsFor(lib, m, hashed, d) && SignedOver(lib, x, Some(h), d, signature))
            && (cfg.useEmbedded ==> ParseValue(address).Success? && KeyMayUse(address, lib.hash224(x), cfg.strict))
            && (cfg.hasAddress ==>
                  exists raw :: ParseValue(raw).Success? && raw != []
                                && AddressText.Written(lib.checksums, cfg.address, raw)
                                && KeyMayUse(raw, lib.hash224(x), cfg.strict))
  {
    hide DecodeSign1, Cose.DecodeKey, SignatureBytes, KeyBytes, HeaderBytes, ConfigOf, VerifyValue, Cip30.Parse,
         StandsFor, SignedOver, Hex.SpelledInHex, ParseValue, AddressText.Written, KeyMayUse;
    SignerBytes(address, hashed, payload, signature);
    SignerKeyBytes(x);
    ParseErrors(ds, SignatureBytes(address, hashed, payload, signature), KeyBytes(x));
    ValidInNumbers(lib, ds, opts);
    OneAddressOption(opts);
    EmptyFails();
  }

  lemma OneAddressOption(opts: seq<VerifyOption>)
    requires OptionsValue(opts).Success?
    ensures !(ConfigOf(opts).hasAddress && ConfigOf(opts).useEmbedded)
  {
  }

  lemma EmptyFails()
    ensures ParseValue([]).Failure?
  {
  }
}
