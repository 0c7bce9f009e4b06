/** What a verdict of Verify means, over every input and every list of options. */
module Verdict {
  import opened Bytes
  import Addresses
  import opened Message
  import opened Matching
  import opened Cip30
  import OptionOrder
  import Hex
  import Cbor
  import CborBytes
  import Cose

  // ----- Parsed signatures -----

  /** The length guards of the signature check never fire on a parsed signature. */
  lemma ParsedLengths(ds: DataSignature)
    requires Parse(ds).Success?
    ensures var s := Parse(ds).value;
            && |s.publicKey| == Cose.KEY_SIZE && |s.signature| == Cose.SIGNATURE_SIZE
            && s.protectedRaw.Some? && s.protectedRaw.value != []
  {
    var data, key := Hex.Decode(ds.signature).value, Hex.Decode(ds.key).value;
    Cose.AcceptedProtectedIsPresent(data);
    Cose.DecodeKeyExact(key, Cose.DecodeKey(key).value);
  }

  /** The Ed25519 check over the Sig_structure of the received header and a given payload. */
  ghost predicate Signed(lib: Library, s: Signature, payload: bytes) {
    var signed := Cose.SigStructure(s.protectedRaw, Some(payload));
    signed.Some? && lib.ed25519(s.publicKey, signed.value, s.signature)
  }

  lemma PayloadIsSigned(lib: Library, s: Signature, payload: Option<bytes>)
    requires |s.publicKey| == Cose.KEY_SIZE && |s.signature| == Cose.SIGNATURE_SIZE
    ensures s.VerifyPayload(lib, payload) <==> Signed(lib, s, Cose.Content(payload))
  {
    assert Cose.Content(Some(Cose.Content(payload))) == Cose.Content(payload);
  }

  /** A decoded wire form and key come through hex decoding and parsing unchanged. */
  lemma ParseWritten(ds: DataSignature, w: Cose.Sign1Wire, s: Cose.Sign1, k: Cbor.Item, x: bytes)
    requires Cose.ValidWire(w) && Cose.Carries(w, s)
    requires Cbor.Valid(k) && Cose.CarriesKey(k, x)
    requires Lower(ds.signature) == Hex.Encode(Cose.EncodeSign1(w))
    requires Lower(ds.key) == Hex.Encode(Cbor.Encode(k))
    ensures Parse(ds) == Success(Signature(x, s.payload, s.hashed, s.address, Some(Cbor.Encode(w.prot)), s.signature))
  {
    hide Cose.DecodeSign1, Cose.DecodeKey, Cose.EncodeSign1, Cbor.Encode, Hex.Encode, Hex.Decode;
    Hex.DecodeIsAnySpelling(ds.signature, Cose.EncodeSign1(w));
    Hex.DecodeIsAnySpelling(ds.key, Cbor.Encode(k));
    Cose.DecodeSign1Written(w, s);
    Cose.DecodeKeyWritten(k, x);
  }

  /** Nothing else parses: every parsed signature was written in hex by someone. */
  lemma ParseReads(ds: DataSignature) returns (w: Cose.Sign1Wire, s: Cose.Sign1, k: Cbor.Item)
    requires Parse(ds).Success?
    ensures Cose.ValidWire(w) && Cose.Carries(w, s) && Cbor.Valid(k)
    ensures Cose.CarriesKey(k, Parse(ds).value.publicKey)
    ensures Lower(ds.signature) == Hex.Encode(Cose.EncodeSign1(w)) && Lower(ds.key) == Hex.Encode(Cbor.Encode(k))
  {
    var data, key := Hex.Decode(ds.signature).value, Hex.Decode(ds.key).value;
    Hex.DecodeIsAnySpelling(ds.signature, data);
    Hex.DecodeIsAnySpelling(ds.key, key);
    s := Cose.DecodeSign1(data).value;
    w := Cose.DecodeSign1Reads(data);
    Cose.DecodeSign1Written(w, s);
    var x := Cose.DecodeKey(key).value;
    Cose.DecodeKeyExact(key, x);
    k :| Cbor.Valid(k) && key == Cbor.Encode(k) && Cose.CarriesKey(k, x);
  }

  // ----- The verdict -----

  /** The payload the signature must cover: the expected message's digest, or what is embedded. */
  function CoveredPayload(lib: Library, s: Signature, cfg: Config): bytes {
    if cfg.hasMessage then Digest(lib, cfg.message, s.hashed) else Cose.Content(s.payload)
  }

  /** The address a configuration wants checked, decoded from wherever it comes. */
  function WantedAddress(lib: Library, s: Signature, cfg: Config): Result<Addresses.Decoded, Addresses.AddressError> {
    if cfg.useEmbedded then Addresses.ParseValue(Cose.Content(s.address))
    else Addresses.DecodeValue(lib.checksums, cfg.address)
  }

  /** The key's hash is a key hash of the address; strict mode asks a base address for its payment key. */
  ghost predicate Controls(keyHash: bytes, v: Addresses.Decoded, strict: bool) {
    || CredentialMatches(v.payment, keyHash)
    || (CredentialMatches(v.stake, keyHash) && (!strict || Addresses.IsReward(v.addrType)))
  }

  /** Everything a positive verdict promises. */
  ghost predicate Accepts(lib: Library, ds: DataSignature, cfg: Config) {
    && Parse(ds).Success?
    && var s := Parse(ds).value;
    && Signed(lib, s, CoveredPayload(lib, s, cfg))
    && (cfg.hasMessage && !s.Detached() ==> Cose.Content(s.payload) == CoveredPayload(lib, s, cfg))
    && (cfg.hasAddress || cfg.useEmbedded ==>
          && WantedAddress(lib, s, cfg).Success?
          && Controls(s.KeyHash(lib), WantedAddress(lib, s, cfg).value, cfg.strict))
  }

  lemma CheckMeansControl(raw: bytes, keyHash: bytes, strict: bool, source: Source)
    requires Addresses.ParseValue(raw).Success?
    ensures CheckOf(raw, keyHash, strict, source).matched <==>
            Controls(keyHash, Addresses.ParseValue(raw).value, strict)
  {
    MatchPolicy(raw, keyHash, source);
  }

  lemma AddressVerdict(lib: Library, s: Signature, cfg: Config)
    ensures s.CheckValue(lib, cfg).Success? <==> WantedAddress(lib, s, cfg).Success?
    ensures s.CheckValue(lib, cfg).Success? ==>
              (s.CheckValue(lib, cfg).value.matched <==>
               Controls(s.KeyHash(lib), WantedAddress(lib, s, cfg).value, cfg.strict))
  {
    if WantedAddress(lib, s, cfg).Success? {
      if cfg.useEmbedded {
        CheckMeansControl(Cose.Content(s.address), s.KeyHash(lib), cfg.strict, Embedded);
      } else {
        DecodedIsParsed(lib.checksums, cfg.address);
        var v := Addresses.DecodeValue(lib.checksums, cfg.address).value;
        CheckMeansControl(v.raw, s.KeyHash(lib), cfg.strict, Supplied);
      }
    }
  }

  lemma SignatureVerdict(lib: Library, ds: DataSignature, cfg: Config)
    requires Parse(ds).Success?
    ensures var s := Parse(ds).value;
            (s.SignatureValid(lib, cfg) && (cfg.hasMessage ==> s.VerifyMessage(lib, cfg.message).matched))
            <==>
            (Signed(lib, s, CoveredPayload(lib, s, cfg))
             && (cfg.hasMessage && !s.Detached() ==> Cose.Content(s.payload) == CoveredPayload(lib, s, cfg)))
  {
    hide Parse;
    var s := Parse(ds).value;
    ParsedLengths(ds);
    PayloadIsSigned(lib, s, s.payload);
    PayloadIsSigned(lib, s, Some(Digest(lib, cfg.message, s.hashed)));
  }

  /**
   * End to end: Verify reports a valid result exactly when the options do not conflict and the
   * signature covers what was asked for and the key controls the address that was asked for.
   */
  lemma ValidExactly(lib: Library, ds: DataSignature, opts: seq<VerifyOption>)
    ensures (VerifyValue(lib, ds, opts).Success? && VerifyValue(lib, ds, opts).value.Valid()) <==>
            OptionsValue(opts).Success? && Accepts(lib, ds, ConfigOf(opts))
  {
    hide Parse, ConfigOf, Signed, CoveredPayload, WantedAddress, Controls;
    if OptionsValue(opts).Success? && Parse(ds).Success? {
      var cfg, s := ConfigOf(opts), Parse(ds).value;
      SignatureVerdict(lib, ds, cfg);
      AddressVerdict(lib, s, cfg);
    }
  }

  /** A detached signature's message check and signature check are one verdict, in every run. */
  lemma DetachedVerdictsAgree(lib: Library, ds: DataSignature, opts: seq<VerifyOption>)
    requires VerifyValue(lib, ds, opts).Success? && Parse(ds).value.Detached()
    requires ConfigOf(opts).hasMessage
    ensures var o := VerifyValue(lib, ds, opts).value;
            o.message.Some? && o.message.value.matched == o.signatureValid
  {
  }

  /**
   * A correctly made signature is accepted, whatever widths and entry orders its maker chose:
   * the signature covers what is asked for, and the key controls the address if one is asked for.
   */
  lemma HonestSignatureAccepted(lib: Library, ds: DataSignature, opts: seq<VerifyOption>,
      w: Cose.Sign1Wire, s: Cose.Sign1, k: Cbor.Item, x: bytes)
    requires Cose.ValidWire(w) && Cose.Carries(w, s) && Cbor.Valid(k) && Cose.CarriesKey(k, x)
    requires Lower(ds.signature) == Hex.Encode(Cose.EncodeSign1(w)) && Lower(ds.key) == Hex.Encode(Cbor.Encode(k))
    requires OptionsValue(opts).Success?
    requires var cfg := ConfigOf(opts);
             var d := if cfg.hasMessage then Digest(lib, cfg.message, s.hashed) else Cose.Content(s.payload);
             && (s.payload == None || s.payload == Some([]) || s.payload == Some(d))
             && Cose.SigStructure(Some(Cbor.Encode(w.prot)), Some(d)).Some?
             && lib.ed25519(x, Cose.SigStructure(Some(Cbor.Encode(w.prot)), Some(d)).value, s.signature)
    requires var cfg := ConfigOf(opts);
             var sig := Signature(x, s.payload, s.hashed, s.address, Some(Cbor.Encode(w.prot)), s.signature);
             cfg.hasAddress || cfg.useEmbedded ==>
               && WantedAddress(lib, sig, cfg).Success?
               && Controls(lib.hash224(x), WantedAddress(lib, sig, cfg).value, cfg.strict)
    ensures VerifyValue(lib, ds, opts).Success? && VerifyValue(lib, ds, opts).value.Valid()
  {
    hide Parse, ConfigOf, Cose.Carries, Cose.CarriesKey, Cose.EncodeSign1, Cbor.Encode, Cbor.Valid, Hex.Encode,
         VerifyValue, WantedAddress, Controls, Digest;
    ParseWritten(ds, w, s, k, x);
    ValidExactly(lib, ds, opts);
  }

  /** A payload that is null and one that is an empty byte string are the same to every call of Verify. */
  lemma NullPayloadIsEmpty(lib: Library, ds: DataSignature, ds': DataSignature, opts: seq<VerifyOption>)
    requires Parse(ds).Success? && Parse(ds).value.payload == None
    requires Parse(ds') == Success(Parse(ds).value.(payload := Some([])))
    ensures VerifyValue(lib, ds, opts) == VerifyValue(lib, ds', opts)
  {
    hide Parse, OptionsValue, ConfigOf, Digest, Cose.SigStructure;
    var s, t := Parse(ds).value, Parse(ds').value;
    Cose.NilIsEmpty(s.protectedRaw);
    assert s.CheckValue(lib, ConfigOf(opts)) == t.CheckValue(lib, ConfigOf(opts));
  }

  // ----- Messages -----

  /**
   * A signature with an embedded payload is valid for one digest only, whatever else is asked
   * for; without the hashed flag, for one message only.
   */
  lemma OneMessagePerSignature(lib: Library, ds: DataSignature, opts: seq<VerifyOption>, opts': seq<VerifyOption>)
    requires Parse(ds).Success? && !Parse(ds).value.Detached()
    requires VerifyValue(lib, ds, opts).Success? && VerifyValue(lib, ds, opts).value.Valid()
    requires VerifyValue(lib, ds, opts').Success? && VerifyValue(lib, ds, opts').value.Valid()
    requires ConfigOf(opts).hasMessage && ConfigOf(opts').hasMessage
    ensures var s, m, m' := Parse(ds).value, ConfigOf(opts).message, ConfigOf(opts').message;
            && Digest(lib, m, s.hashed) == Digest(lib, m', s.hashed)
            && (!s.hashed ==> m == m')
  {
    hide Parse, ConfigOf, VerifyValue;
    ValidExactly(lib, ds, opts);
    ValidExactly(lib, ds, opts');
  }

  /** For a detached signature, messages reconstruct the same signed bytes only if their digests agree. */
  lemma DetachedMessagesSignDifferentBytes(lib: Library, s: Signature, m: bytes, m': bytes)
    requires Cose.SigStructure(s.protectedRaw, Some(Digest(lib, m, s.hashed))).Some?
    ensures Cose.SigStructure(s.protectedRaw, Some(Digest(lib, m, s.hashed)))
            == Cose.SigStructure(s.protectedRaw, Some(Digest(lib, m', s.hashed)))
            <==> Digest(lib, m, s.hashed) == Digest(lib, m', s.hashed)
    ensures !s.hashed && m != m' ==>
              Cose.SigStructure(s.protectedRaw, Some(m)) != Cose.SigStructure(s.protectedRaw, Some(m'))
  {
    Cose.SigStructureInjective(s.protectedRaw, Some(Digest(lib, m, s.hashed)),
                               s.protectedRaw, Some(Digest(lib, m', s.hashed)));
  }

  /** What is signed for a parsed signature, in numbers: never a null, and 40 for an empty payload. */
  lemma SignedBytesLayout(ds: DataSignature, payload: Option<bytes>)
    requires Parse(ds).Success?
    requires Cose.SigStructure(Parse(ds).value.protectedRaw, payload).Some?
    ensures Parse(ds).value.protectedRaw.Some?
    ensures Cose.SigStructure(Parse(ds).value.protectedRaw, payload).value ==
            [0x84, 0x6a, 0x53, 0x69, 0x67, 0x6e, 0x61, 0x74, 0x75, 0x72, 0x65, 0x31]
            + CborBytes.WireBytes(Parse(ds).value.protectedRaw.value)
            + [0x40] + CborBytes.WireBytes(Cose.Content(payload))
    ensures CborBytes.WireBytes([]) == [0x40]
  {
    hide Parse, Cose.SigStructure, CborBytes.WireBytes;
    ParsedLengths(ds);
    Cose.SigStructureDefined(Parse(ds).value.protectedRaw, payload);
    Cose.SigStructureLayout(Parse(ds).value.protectedRaw, payload);
    EmptyBytes();
  }

  lemma EmptyBytes()
    ensures CborBytes.WireBytes([]) == [0x40]
  {
  }

  // ----- The step-by-step calls -----

  /** The strictness of a configuration as an option list. */
  function StrictOption(strict: bool): seq<VerifyOption> {
    if strict then [StrictAddress] else []
  }

  lemma StrictOptionValue(strict: bool)
    ensures OptionsValue(StrictOption(strict)) == Success(Config([], false, [], false, false, strict))
  {
    assert Messages([]) == [] && Supplies([]) == [];
    assert [StrictAddress][..0] == [];
    assert Messages([StrictAddress]) == [] && Supplies([StrictAddress]) == [];
  }

  /** The address step of a configuration, through the public calls. */
  function AddressStep(lib: Library, s: Signature, cfg: Config): Result<Option<CheckView>, Error> {
    if !cfg.hasAddress && !cfg.useEmbedded then Success(None) else
    match if cfg.useEmbedded then s.EmbeddedValue(lib, cfg.strict)
          else s.MatchesValue(lib, cfg.address, StrictOption(cfg.strict))
    case Failure(e) => Failure(e)
    case Success(check) => Success(Some(check))
  }

  /**
   * The one-shot call agrees with the step-by-step calls: the first of options, parsing and
   * address decoding that fails is the error; otherwise every field is that of its step.
   */
  lemma OneShotIsStepwise(lib: Library, ds: DataSignature, opts: seq<VerifyOption>)
    ensures OptionsValue(opts).Failure? ==> VerifyValue(lib, ds, opts) == Failure(ConflictingAddress)
    ensures OptionsValue(opts).Success? && Parse(ds).Failure? ==>
              VerifyValue(lib, ds, opts) == Failure(Parse(ds).error)
    ensures OptionsValue(opts).Success? && Parse(ds).Success? ==>
              var s, cfg := Parse(ds).value, ConfigOf(opts);
              match AddressStep(lib, s, cfg)
              case Failure(e) => VerifyValue(lib, ds, opts) == Failure(e)
              case Success(check) =>
                && VerifyValue(lib, ds, opts).Success?
                && var o := VerifyValue(lib, ds, opts).value;
                && o.address == check
                && o.message == (if cfg.hasMessage then Some(s.VerifyMessage(lib, cfg.message)) else None)
                && o.publicKey == s.publicKey && o.keyHash == s.KeyHash(lib)
                && o.signatureValid ==
                   (if cfg.hasMessage && s.Detached() then s.VerifyMessage(lib, cfg.message).matched
                    else s.Verify(lib))
  {
    hide Parse;
    ConflictExactly(opts);
    StrictOptionValue(ConfigOf(opts).strict);
  }

  /**
   * Swapping neighbours of different kinds, any number of times, changes nothing: by
   * OptionOrder.ReordersExactly these are all the orders that keep options of one kind in order.
   */
  lemma OptionOrderIsIrrelevant(lib: Library, ds: DataSignature, opts: seq<VerifyOption>, opts': seq<VerifyOption>,
      n: nat)
    requires OptionOrder.Reorders(opts, opts', n)
    ensures OptionsValue(opts) == OptionsValue(opts')
    ensures VerifyValue(lib, ds, opts) == VerifyValue(lib, ds, opts')
  {
    hide Messages, Supplies, Parse, OptionOrder.Reorders;
    OptionOrder.ReorderingKeepsAsked(opts, opts', n);
  }

  /** Strict mode only ever takes acceptance away. */
  lemma StrictOnlyRefuses(lib: Library, ds: DataSignature, opts: seq<VerifyOption>)
    requires VerifyValue(lib, ds, opts + [StrictAddress]).Success?
    requires VerifyValue(lib, ds, opts + [StrictAddress]).value.Valid()
    ensures VerifyValue(lib, ds, opts).Success? && VerifyValue(lib, ds, opts).value.Valid()
  {
    hide Parse, VerifyValue, Signed, Digest;
    var strict := opts + [StrictAddress];
    assert strict[..|opts|] == opts;
    ValidExactly(lib, ds, opts);
    ValidExactly(lib, ds, strict);
    assert ConfigOf(strict) == ConfigOf(opts).(strict := true);
  }

  /** What strict mode takes away is exactly the stake-only matches of base addresses. */
  lemma StrictRefusesExactly(lib: Library, ds: DataSignature, opts: seq<VerifyOption>)
    requires StrictAddress !in opts
    requires VerifyValue(lib, ds, opts).Success? && VerifyValue(lib, ds, opts).value.Valid()
    ensures VerifyValue(lib, ds, opts + [StrictAddress]).Success?
    ensures var check := VerifyValue(lib, ds, opts).value.address;
            !VerifyValue(lib, ds, opts + [StrictAddress]).value.Valid() <==>
            check.Some? && check.value.category == Base && check.value.via == StakeCredential
  {
    hide Parse, Addresses.DecodeValue, CheckOf, Cose.SigStructure, Digest;
    var strict := opts + [StrictAddress];
    assert strict[..|opts|] == opts;
    assert ConfigOf(strict) == ConfigOf(opts).(strict := true);
    var cfg, s := ConfigOf(opts), Parse(ds).value;
    if cfg.useEmbedded {
      MatchPolicy(Cose.Content(s.address), s.KeyHash(lib), Embedded);
    } else if cfg.hasAddress {
      DecodedIsParsed(lib.checksums, cfg.address);
      MatchPolicy(Addresses.DecodeValue(lib.checksums, cfg.address).value.raw, s.KeyHash(lib), Supplied);
    }
  }
}
