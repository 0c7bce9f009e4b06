/**
 * Every field of a result and every error of Verify, in numbers: what is hashed, compared and
 * signed is spelled out in bytes, and none of the functions under proof is used to say it.
 */
module Outcomes {
  import opened Bytes
  import opened Addresses
  import opened Message
  import opened Matching
  import opened Cip30
  import AddressText
  import Hex
  import Cbor
  import CborBytes
  import Cose
  import Verdict

  /** The Ed25519 check over 84, "Signature1", the protected header or null, 40 and a payload. */
  ghost predicate SignedOver(lib: Library, x: bytes, p: Option<bytes>, y: bytes, signature: bytes) {
    && |x| == 32 && |signature| == 64
    && |Cose.Content(p)| < 0x1_0000_0000_0000_0000 && |y| < 0x1_0000_0000_0000_0000
    && lib.ed25519(x, [0x84, 0x6a, 0x53, 0x69, 0x67, 0x6e, 0x61, 0x74, 0x75, 0x72, 0x65, 0x31]
                      + (if p.Some? then CborBytes.WireBytes(p.value) else [0xf6])
                      + [0x40] + CborBytes.WireBytes(y), signature)
  }

  /** The same over whatever bytes a message stands for. */
  ghost predicate SignedOverMessage(lib: Library, s: Signature, message: bytes) {
    exists y :: StandsFor(lib, message, s.hashed, y) && SignedOver(lib, s.publicKey, s.protectedRaw, y, s.signature)
  }

  ghost predicate SignedAsReceived(lib: Library, s: Signature) {
    SignedOver(lib, s.publicKey, s.protectedRaw, Cose.Content(s.payload), s.signature)
  }

  lemma PayloadInNumbers(lib: Library, s: Signature, payload: Option<bytes>)
    ensures s.VerifyPayload(lib, payload) <==>
            SignedOver(lib, s.publicKey, s.protectedRaw, Cose.Content(payload), s.signature)
  {
    hide Cose.SigStructure, CborBytes.WireBytes;
    Cose.SigStructureDefined(s.protectedRaw, payload);
    if |Cose.Content(s.protectedRaw)| < 0x1_0000_0000_0000_0000 && |Cose.Content(payload)| < 0x1_0000_0000_0000_0000 {
      Cose.SigStructureLayout(s.protectedRaw, payload);
    }
  }

  /** The signature step by itself, for any fields whatever. */
  lemma SignatureStep(lib: Library, s: Signature)
    ensures s.Verify(lib) <==> SignedAsReceived(lib, s)
  {
    PayloadInNumbers(lib, s, s.payload);
  }

  lemma MessageInNumbers(lib: Library, s: Signature, message: bytes)
    ensures s.VerifyPayload(lib, Some(Digest(lib, message, s.hashed))) <==> SignedOverMessage(lib, s, message)
  {
    hide SignedOver, Digest, StandsFor;
    var d := Digest(lib, message, s.hashed);
    PayloadInNumbers(lib, s, Some(d));
    DigestStandsFor(lib, message, s.hashed, d);
    if y :| StandsFor(lib, message, s.hashed, y) && SignedOver(lib, s.publicKey, s.protectedRaw, y, s.signature) {
      DigestStandsFor(lib, message, s.hashed, y);
    }
  }

  /** The message step by itself: the payload against the message, or the signature over it. */
  lemma MessageVerdict(lib: Library, s: Signature, message: bytes)
    ensures s.VerifyMessage(lib, message).hashed == s.hashed
    ensures s.VerifyMessage(lib, message).matched <==>
            if Cose.Content(s.payload) == [] then SignedOverMessage(lib, s, message)
            else StandsFor(lib, message, s.hashed, Cose.Content(s.payload))
  {
    hide SignedOverMessage, Digest, StandsFor;
    MessageInNumbers(lib, s, message);
    DigestStandsFor(lib, message, s.hashed, Cose.Content(s.payload));
  }

  /** An embedded payload is compared with the message whatever Ed25519 says. */
  lemma EmbeddedVerdictIgnoresSignature(lib: Library, ed25519: (bytes, bytes, bytes) -> bool, s: Signature,
      message: bytes)
    requires Cose.Content(s.payload) != []
    ensures s.VerifyMessage(lib, message) == s.VerifyMessage(lib.(ed25519 := ed25519), message)
  {
  }

  /** What an address check reports, from the header byte, the hash windows and the call. */
  ghost predicate Reports(c: CheckView, raw: bytes, keyHash: bytes, strict: bool, source: Source)
    requires |raw| >= 29 && (raw[0] < 64 ==> |raw| >= 57)
  {
    var t, n := raw[0] / 16, raw[0] % 16;
    var payment := t in {0, 2, 6} && raw[1..29] == keyHash;
    var stake := (t in {0, 1} && raw[29..57] == keyHash) || (t == 14 && raw[1..29] == keyHash);
    && c.category == (if t <= 3 then Base else if t <= 7 then Enterprise else Reward)
    && c.network == (if n == 0 then Testnet else if n == 1 then Mainnet else Unknown)
    && c.via == (if payment then PaymentCredential else if stake then StakeCredential else NoCredential)
    && (c.matched <==> payment || (stake && (t == 14 || !strict)))
    && c.strict == strict
    && c.source == source
  }

  lemma CheckInNumbers(raw: bytes, keyHash: bytes, strict: bool, source: Source)
    requires ParseValue(raw).Success?
    ensures |raw| >= 29 && (raw[0] < 64 ==> |raw| >= 57)
    ensures Reports(CheckOf(raw, keyHash, strict, source), raw, keyHash, strict, source)
  {
  }

  /** The raw address that a run checks: the embedded one, or the one the supplied text stands for. */
  ghost predicate Checked(lib: Library, s: Signature, cfg: Config, raw: bytes) {
    && ParseValue(raw).Success? && raw != []
    && if cfg.useEmbedded then raw == Cose.Content(s.address)
       else AddressText.Written(lib.checksums, cfg.address, raw)
  }

  lemma CheckedAddress(lib: Library, s: Signature, cfg: Config)
    requires s.CheckValue(lib, cfg).Success?
    ensures exists raw :: Checked(lib, s, cfg, raw)
                          && |raw| >= 29 && (raw[0] < 64 ==> |raw| >= 57)
                          && Reports(s.CheckValue(lib, cfg).value, raw, lib.hash224(s.publicKey), cfg.strict,
                                     if cfg.useEmbedded then Embedded else Supplied)
  {
    hide ParseValue, DecodeValue, Reports, AddressText.Written, CheckOf, Bech32Spelling, HexSpelling;
    if cfg.useEmbedded {
      CheckInNumbers(Cose.Content(s.address), lib.hash224(s.publicKey), cfg.strict, Embedded);
    } else {
      var v := DecodeValue(lib.checksums, cfg.address).value;
      DecodeAccepts(lib.checksums, cfg.address, v);
      AddressText.AcceptedTexts(lib.checksums, cfg.address, v.raw);
      CheckInNumbers(v.raw, lib.hash224(s.publicKey), cfg.strict, Supplied);
    }
  }

  /** Every field of a result, valid or not. */
  lemma OutcomeExactly(lib: Library, ds: DataSignature, opts: seq<VerifyOption>)
    requires VerifyValue(lib, ds, opts).Success?
    ensures Cip30.Parse(ds).Success?
    ensures var o, s, cfg := VerifyValue(lib, ds, opts).value, Cip30.Parse(ds).value, ConfigOf(opts);
            var detached := Cose.Content(s.payload) == [];
            && o.publicKey == s.publicKey && o.keyHash == lib.hash224(s.publicKey)
            && (o.signatureValid <==>
                  if cfg.hasMessage && detached then SignedOverMessage(lib, s, cfg.message)
                  else SignedAsReceived(lib, s))
            && (o.message.Some? <==> cfg.hasMessage)
            && (cfg.hasMessage ==>
                  && o.message.value.hashed == s.hashed
                  && (o.message.value.matched <==>
                        if detached then SignedOverMessage(lib, s, cfg.message)
                        else StandsFor(lib, cfg.message, s.hashed, Cose.Content(s.payload))))
            && (o.address.Some? <==> cfg.hasAddress || cfg.useEmbedded)
            && (o.address.Some? ==>
                  exists raw :: Checked(lib, s, cfg, raw)
                                && |raw| >= 29 && (raw[0] < 64 ==> |raw| >= 57)
                                && Reports(o.address.value, raw, o.keyHash, cfg.strict,
                                           if cfg.useEmbedded then Embedded else Supplied))
  {
    hide Cip30.Parse, ConfigOf, SignedOverMessage, SignedOver, StandsFor, Digest, Reports, Checked, Cose.SigStructure;
    var s, cfg := Cip30.Parse(ds).value, ConfigOf(opts);
    PayloadInNumbers(lib, s, s.payload);
    MessageInNumbers(lib, s, cfg.message);
    MessageVerdict(lib, s, cfg.message);
    if cfg.hasAddress || cfg.useEmbedded {
      CheckedAddress(lib, s, cfg);
    }
  }

  /** What a result says of a message: payload y, protected header p, key x and signature as received. */
  ghost predicate MessageStep(lib: Library, o: Outcome, message: bytes, hashed: bool, y: bytes,
                              p: bytes, x: bytes, signature: bytes)
  {
    && o.publicKey == x && o.message.Some? && o.message.value.hashed == hashed
    && (y != [] ==> (o.message.value.matched <==> StandsFor(lib, message, hashed, y)))
    && (y != [] ==> (o.signatureValid <==> SignedOver(lib, x, Some(p), y, signature)))
    && (y == [] ==> (o.message.value.matched <==> o.signatureValid))
    && (y == [] ==> (o.signatureValid <==>
                       exists d :: StandsFor(lib, message, hashed, d) && SignedOver(lib, x, Some(p), d, signature)))
  }

  /** The message step of whatever signature and key were written, valid or not. */
  lemma MessageStepOfWire(lib: Library, ds: DataSignature, opts: seq<VerifyOption>,
      w: Cose.Sign1Wire, s: Cose.Sign1, k: Cbor.Item, x: bytes)
    requires Cose.ValidWire(w) && Cose.Carries(w, s) && Cbor.Valid(k) && Cose.CarriesKey(k, x)
    requires Lower(ds.signature) == Hex.Encode(Cose.EncodeSign1(w)) && Lower(ds.key) == Hex.Encode(Cbor.Encode(k))
    requires VerifyValue(lib, ds, opts).Success? && ConfigOf(opts).hasMessage
    ensures MessageStep(lib, VerifyValue(lib, ds, opts).value, ConfigOf(opts).message, s.hashed,
                        Cose.Content(s.payload), Cbor.Encode(w.prot), x, s.signature)
  {
    hide Cip30.Parse, ConfigOf, VerifyValue, SignedOver, StandsFor, Cose.Carries, Cose.CarriesKey, Cose.EncodeSign1,
         Cbor.Encode, Cbor.Valid, Hex.Encode, Reports, Checked;
    Verdict.ParseWritten(ds, w, s, k, x);
    OutcomeExactly(lib, ds, opts);
  }

  /** The address step by itself: what MatchesAddress reports for a text, or the error it gives. */
  lemma AddressStep(lib: Library, s: Signature, text: bytes, opts: seq<VerifyOption>)
    ensures var r := s.MatchesValue(lib, text, opts);
            && (r == Failure(ConflictingAddress) <==>
                  && (exists i :: 0 <= i < |opts| && opts[i].WithAddress?)
                  && (exists i :: 0 <= i < |opts| && opts[i] == WithEmbeddedAddress))
            && (r != Failure(ConflictingAddress) ==>
                  match DecodeValue(lib.checksums, text)
                  case Failure(e) => r == Failure(DecodeAddress(e))
                  case Success(v) =>
                    && r.Success? && |v.raw| >= 29 && (v.raw[0] < 64 ==> |v.raw| >= 57)
                    && Reports(r.value, v.raw, lib.hash224(s.publicKey), StrictAddress in opts, Supplied))
  {
    hide DecodeValue, Reports, CheckOf, ParseValue;
    ConflictExactly(opts);
    if DecodeValue(lib.checksums, text).Success? {
      DecodedIsParsed(lib.checksums, text);
      var v := DecodeValue(lib.checksums, text).value;
      CheckInNumbers(v.raw, lib.hash224(s.publicKey), StrictAddress in opts, Supplied);
    }
  }

  // ----- The verdict, in numbers -----

  /** The hash of the key lies in a raw address where the policy looks for it. */
  ghost predicate KeyMayUse(raw: bytes, keyHash: bytes, strict: bool) {
    && |raw| >= 29 && (raw[0] < 64 ==> |raw| >= 57)
    && var t := raw[0] / 16;
       || (t in {0, 2, 6} && raw[1..29] == keyHash)
       || (t in {0, 1} && raw[29..57] == keyHash && !strict)
       || (t == 14 && raw[1..29] == keyHash)
  }

  lemma CheckedIsOne(lib: Library, s: Signature, cfg: Config, raw: bytes, raw': bytes)
    requires Checked(lib, s, cfg, raw) && Checked(lib, s, cfg, raw')
    ensures raw == raw'
  {
    hide ParseValue, DecodeValue, AddressText.Written;
    if !cfg.useEmbedded {
      AddressText.AcceptedTexts(lib.checksums, cfg.address, raw);
      AddressText.AcceptedTexts(lib.checksums, cfg.address, raw');
      ParseKeepsRaw(raw, ParseValue(raw).value);
      ParseKeepsRaw(raw', ParseValue(raw').value);
    }
  }

  lemma CheckedSucceeds(lib: Library, s: Signature, cfg: Config, raw: bytes)
    requires Checked(lib, s, cfg, raw)
    ensures s.CheckValue(lib, cfg).Success?
  {
    hide ParseValue, DecodeValue, AddressText.Written, CheckOf;
    if !cfg.useEmbedded {
      AddressText.AcceptedTexts(lib.checksums, cfg.address, raw);
    }
  }

  /** The address step is passed exactly when the address checked holds the hash of the key. */
  lemma AddressInNumbers(lib: Library, s: Signature, cfg: Config)
    ensures (s.CheckValue(lib, cfg).Success? && s.CheckValue(lib, cfg).value.matched) <==>
            exists raw :: Checked(lib, s, cfg, raw) && KeyMayUse(raw, lib.hash224(s.publicKey), cfg.strict)
  {
    hide Checked;
    if s.CheckValue(lib, cfg).Success? {
      CheckedAddress(lib, s, cfg);
      var source := if cfg.useEmbedded then Embedded else Supplied;
      var raw :| Checked(lib, s, cfg, raw) && |raw| >= 29 && (raw[0] < 64 ==> |raw| >= 57)
                 && Reports(s.CheckValue(lib, cfg).value, raw, lib.hash224(s.publicKey), cfg.strict, source);
      hide Signature.CheckValue;
      forall r | Checked(lib, s, cfg, r) ensures r == raw {
        CheckedIsOne(lib, s, cfg, r, raw);
      }
    } else {
      forall raw | Checked(lib, s, cfg, raw) ensures false {
        CheckedSucceeds(lib, s, cfg, raw);
      }
    }
  }

  /**
   * End to end, in numbers. Without the hashed flag the message itself is the embedded payload or
   * what is signed; with it, the bytes it spells in hex or else its hash.
   */
  lemma ValidInNumbers(lib: Library, ds: DataSignature, opts: seq<VerifyOption>)
    ensures (VerifyValue(lib, ds, opts).Success? && VerifyValue(lib, ds, opts).value.Valid()) <==>
            && OptionsValue(opts).Success?
            && Cip30.Parse(ds).Success?
            && var s, cfg := Cip30.Parse(ds).value, ConfigOf(opts);
            && (if cfg.hasMessage && Cose.Content(s.payload) == [] then SignedOverMessage(lib, s, cfg.message)
                else SignedAsReceived(lib, s))
            && (cfg.hasMessage && Cose.Content(s.payload) != [] ==>
                  StandsFor(lib, cfg.message, s.hashed, Cose.Content(s.payload)))
            && (cfg.hasAddress || cfg.useEmbedded ==>
                  exists raw :: Checked(lib, s, cfg, raw) && KeyMayUse(raw, lib.hash224(s.publicKey), cfg.strict))
  {
    hide Cip30.Parse, ConfigOf, SignedOver, StandsFor, Digest, Checked, KeyMayUse, Cose.SigStructure,
         Signature.CheckValue;
    if OptionsValue(opts).Success? && Cip30.Parse(ds).Success? {
      var s, cfg := Cip30.Parse(ds).value, ConfigOf(opts);
      PayloadInNumbers(lib, s, s.payload);
      MessageInNumbers(lib, s, cfg.message);
      MessageVerdict(lib, s, cfg.message);
      AddressInNumbers(lib, s, cfg);
    }
  }

  // ----- Errors -----

  /** Which error Verify reports, and when: options first, then the inputs, then the address. */
  lemma VerifyErrors(lib: Library, ds: DataSignature, opts: seq<VerifyOption>)
    ensures var r, cfg := VerifyValue(lib, ds, opts), ConfigOf(opts);
            var conflict := (exists i :: 0 <= i < |opts| && opts[i].WithAddress?)
                            && (exists i :: 0 <= i < |opts| && opts[i] == WithEmbeddedAddress);
            && (conflict ==> r == Failure(ConflictingAddress))
            && (!conflict && Cip30.Parse(ds).Failure? ==> r == Failure(Cip30.Parse(ds).error))
            && (!conflict && Cip30.Parse(ds).Success? ==>
                  var raw := Cose.Content(Cip30.Parse(ds).value.address);
                  if cfg.useEmbedded then
                    if raw == [] then r == Failure(NoEmbeddedAddress)
                    else match ParseValue(raw)
                         case Failure(e) => r == Failure(DecodeAddress(e))
                         case Success(_) => r.Success?
                  else if cfg.hasAddress then
                    match DecodeValue(lib.checksums, cfg.address)
                    case Failure(e) => r == Failure(DecodeAddress(e))
                    case Success(_) => r.Success?
                  else r.Success?)
  {
    hide Cip30.Parse, ConfigOf, DecodeValue, ParseValue, CheckOf;
    ConflictExactly(opts);
  }

  /** Which error parsing reports, and when: signature hex, key hex, signature, key. */
  lemma ParseErrors(ds: DataSignature, a: bytes, b: bytes)
    ensures (forall d :: !Hex.SpelledInHex(ds.signature, d)) ==> Cip30.Parse(ds) == Failure(InvalidSignatureHex)
    ensures Hex.SpelledInHex(ds.signature, a) && (forall d :: !Hex.SpelledInHex(ds.key, d)) ==>
              Cip30.Parse(ds) == Failure(InvalidKeyHex)
    ensures Hex.SpelledInHex(ds.signature, a) && Hex.SpelledInHex(ds.key, b) ==>
              Cip30.Parse(ds) ==
              match Cose.DecodeSign1(a)
              case Failure(e) => Failure(DecodeSignature(e))
              case Success(s) =>
                match Cose.DecodeKey(b)
                case Failure(e) => Failure(Cip30.DecodeKey(e))
                case Success(x) => Success(Signature(x, s.payload, s.hashed, s.address, s.protectedRaw, s.signature))
  {
    hide Cose.DecodeSign1, Cose.DecodeKey, Hex.SpelledInHex;
    Hex.DecodeInNumbers(ds.signature, a);
    Hex.DecodeInNumbers(ds.key, b);
    if Hex.Decode(ds.signature).Some? {
      Hex.DecodeInNumbers(ds.signature, Hex.Decode(ds.signature).value);
    }
    if Hex.Decode(ds.key).Some? {
      Hex.DecodeInNumbers(ds.key, Hex.Decode(ds.key).value);
    }
  }
}
