/** Verifying a CIP-30 data signature (package cip30, cip30.go). */
module Cip30 {
  import opened Bytes
  import Bech32
  import Hex
  import Cose
  import opened Addresses
  import opened Message
  import opened Matching

  datatype Error =
    | InvalidSignatureHex
    | InvalidKeyHex
    | DecodeSignature(sign1Cause: Cose.CoseError)
    | DecodeKey(keyCause: Cose.CoseError)
    | DecodeAddress(addressCause: AddressError)
    | ConflictingAddress
    | NoEmbeddedAddress

  datatype DataSignature = DataSignature(signature: bytes, key: bytes)

  datatype MessageCheck = MessageCheck(matched: bool, hashed: bool)

  // ----- Options -----

  datatype VerifyOption =
    | WithMessage(message: bytes)
    | WithAddress(addr: bytes)
    | WithEmbeddedAddress
    | StrictAddress

  datatype Config = Config(message: bytes, hasMessage: bool, address: bytes, hasAddress: bool,
                           useEmbedded: bool, strict: bool)

  class VerifyConfig {
    var message: bytes
    var hasMessage: bool
    var address: bytes
    var hasAddress: bool
    var useEmbedded: bool
    var strict: bool

    constructor ()
      ensures View() == Config([], false, [], false, false, false)
    {
      message, hasMessage, address, hasAddress := [], false, [], false;
      useEmbedded, strict := false, false;
    }

    function View(): Config
      reads this
    {
      Config(message, hasMessage, address, hasAddress, useEmbedded, strict)
    }

    /** What each option's closure does to the configuration. */
    method Apply(opt: VerifyOption)
      modifies this
      ensures var was := old(View());
              View() == match opt
                        case WithMessage(m) => was.(message := m, hasMessage := true)
                        case WithAddress(a) => was.(address := a, hasAddress := true)
                        case WithEmbeddedAddress => was.(useEmbedded := true)
                        case StrictAddress => was.(strict := true)
    {
      match opt
      case WithMessage(m) =>
        message := m;
        hasMessage := true;
      case WithAddress(a) =>
        address := a;
        hasAddress := true;
      case WithEmbeddedAddress =>
        useEmbedded := true;
      case StrictAddress =>
        strict := true;
    }
  }

  /** The messages, and the addresses, that an option list asks for, in order. */
  function Messages(opts: seq<VerifyOption>): seq<bytes> {
    var n := |opts|;
    if n == 0 then []
    else if opts[n - 1].WithMessage? then Messages(opts[..n - 1]) + [opts[n - 1].message]
    else Messages(opts[..n - 1])
  }

  function Supplies(opts: seq<VerifyOption>): seq<bytes> {
    var n := |opts|;
    if n == 0 then []
    else if opts[n - 1].WithAddress? then Supplies(opts[..n - 1]) + [opts[n - 1].addr]
    else Supplies(opts[..n - 1])
  }

  function LastOr(s: seq<bytes>): bytes {
    if s == [] then [] else s[|s| - 1]
  }

  /** The last message and address win; the other options are switches. */
  function ConfigOf(opts: seq<VerifyOption>): Config {
    Config(LastOr(Messages(opts)), Messages(opts) != [], LastOr(Supplies(opts)), Supplies(opts) != [],
           WithEmbeddedAddress in opts, StrictAddress in opts)
  }

  /** Asking for both kinds of address is an error, whatever the order. */
  function OptionsValue(opts: seq<VerifyOption>): Result<Config, Error> {
    if Supplies(opts) != [] && WithEmbeddedAddress in opts then Failure(ConflictingAddress)
    else Success(ConfigOf(opts))
  }

  method ApplyOptions(opts: seq<VerifyOption>) returns (r: Result<Config, Error>)
    ensures r == OptionsValue(opts)
  {
    var cfg := new VerifyConfig();
    for i := 0 to |opts|
      invariant fresh(cfg) && cfg.View() == ConfigOf(opts[..i])
    {
      cfg.Apply(opts[i]);
      assert opts[..i + 1][..i] == opts[..i];
    }
    assert opts[..|opts|] == opts;
    if cfg.hasAddress && cfg.useEmbedded {
      return Failure(ConflictingAddress);
    }
    return Success(cfg.View());
  }

  lemma {:induction false} MessagesArePresent(opts: seq<VerifyOption>)
    ensures Messages(opts) != [] <==> exists i :: 0 <= i < |opts| && opts[i].WithMessage?
    ensures Supplies(opts) != [] <==> exists i :: 0 <= i < |opts| && opts[i].WithAddress?
  {
    var n := |opts|;
    if n > 0 {
      MessagesArePresent(opts[..n - 1]);
      assert forall i :: 0 <= i < n - 1 ==> opts[..n - 1][i] == opts[i];
    }
  }

  /** The last option of a kind is the one that counts. */
  lemma {:induction false} LastMessageWins(opts: seq<VerifyOption>, i: nat)
    requires i < |opts| && opts[i].WithMessage?
    requires forall j :: i < j < |opts| ==> !opts[j].WithMessage?
    ensures ConfigOf(opts).hasMessage && ConfigOf(opts).message == opts[i].message
  {
    var n := |opts|;
    if i < n - 1 {
      LastMessageWins(opts[..n - 1], i);
    }
  }

  lemma {:induction false} LastAddressWins(opts: seq<VerifyOption>, i: nat)
    requires i < |opts| && opts[i].WithAddress?
    requires forall j :: i < j < |opts| ==> !opts[j].WithAddress?
    ensures ConfigOf(opts).hasAddress && ConfigOf(opts).address == opts[i].addr
  {
    var n := |opts|;
    if i < n - 1 {
      LastAddressWins(opts[..n - 1], i);
    }
  }

  /** The four switches of a configuration, each from the option that sets it. */
  lemma SwitchesExactly(opts: seq<VerifyOption>)
    ensures ConfigOf(opts).hasMessage <==> exists i :: 0 <= i < |opts| && opts[i].WithMessage?
    ensures ConfigOf(opts).hasAddress <==> exists i :: 0 <= i < |opts| && opts[i].WithAddress?
    ensures ConfigOf(opts).useEmbedded <==> exists i :: 0 <= i < |opts| && opts[i] == WithEmbeddedAddress
    ensures ConfigOf(opts).strict <==> exists i :: 0 <= i < |opts| && opts[i] == StrictAddress
    ensures !ConfigOf(opts).hasMessage ==> ConfigOf(opts).message == []
    ensures !ConfigOf(opts).hasAddress ==> ConfigOf(opts).address == []
    ensures OptionsValue(opts).Success? ==> OptionsValue(opts).value == ConfigOf(opts)
  {
    MessagesArePresent(opts);
  }

  /** The error is exactly having both kinds somewhere in the list. */
  lemma ConflictExactly(opts: seq<VerifyOption>)
    ensures OptionsValue(opts) == Failure(ConflictingAddress) <==>
            && (exists i :: 0 <= i < |opts| && opts[i].WithAddress?)
            && (exists i :: 0 <= i < |opts| && opts[i] == WithEmbeddedAddress)
    ensures OptionsValue(opts).Failure? ==> OptionsValue(opts) == Failure(ConflictingAddress)
  {
    MessagesArePresent(opts);
  }

  // ----- Parsed signatures -----

  datatype Signature = Signature(publicKey: bytes, payload: Option<bytes>, hashed: bool, address: Option<bytes>,
                                 protectedRaw: Option<bytes>, signature: bytes)
  {
    predicate VerifyPayload(lib: Library, content: Option<bytes>) {
      && |publicKey| == Cose.KEY_SIZE && |signature| == Cose.SIGNATURE_SIZE
      && var signed := Cose.SigStructure(protectedRaw, content);
         signed.Some? && lib.ed25519(publicKey, signed.value, signature)
    }

    predicate Verify(lib: Library) {
      VerifyPayload(lib, payload)
    }

    predicate Detached() {
      |Cose.Content(payload)| == 0
    }

    function VerifyMessage(lib: Library, message: bytes): MessageCheck {
      var expected := Digest(lib, message, hashed);
      if Detached() then MessageCheck(VerifyPayload(lib, Some(expected)), hashed)
      else MessageCheck(Cose.Content(payload) == expected, hashed)
    }

    function KeyHash(lib: Library): bytes {
      lib.hash224(publicKey)
    }

    predicate SignatureValid(lib: Library, cfg: Config) {
      if cfg.hasMessage && Detached() then VerifyPayload(lib, Some(Digest(lib, cfg.message, hashed)))
      else Verify(lib)
    }

    /** The check against an address string, as a value. */
    function SuppliedValue(lib: Library, addr: bytes, strict: bool): Result<CheckView, Error> {
      match DecodeValue(lib.checksums, addr)
      case Failure(e) => Failure(DecodeAddress(e))
      case Success(v) =>
        DecodedIsParsed(lib.checksums, addr);
        Success(CheckOf(v.raw, KeyHash(lib), strict, Supplied))
    }

    /** The check against the signer's own address, as a value. */
    function EmbeddedValue(lib: Library, strict: bool): Result<CheckView, Error> {
      var raw := Cose.Content(address);
      if |raw| == 0 then Failure(NoEmbeddedAddress) else
      match ParseValue(raw)
      case Failure(e) => Failure(DecodeAddress(e))
      case Success(_) => Success(CheckOf(raw, KeyHash(lib), strict, Embedded))
    }

    /** The outcome of MatchesAddress, as a value. */
    function MatchesValue(lib: Library, addr: bytes, opts: seq<VerifyOption>): Result<CheckView, Error> {
      match OptionsValue(opts)
      case Failure(e) => Failure(e)
      case Success(cfg) => SuppliedValue(lib, addr, cfg.strict)
    }

    method CheckSupplied(lib: Library, addr: bytes, strict: bool) returns (check: AddressCheck?, err: Option<Error>)
      ensures check == null <==> err.Some?
      ensures check != null ==> fresh(check) && SuppliedValue(lib, addr, strict) == Success(check.View())
      ensures check == null ==> SuppliedValue(lib, addr, strict) == Failure(err.value)
    {
      var decoded, cause := Addresses.Decode(lib.checksums, addr);
      if decoded == null {
        return null, Some(DecodeAddress(cause.value));
      }
      DecodedIsParsed(lib.checksums, addr);
      check := MatchAddress(decoded, KeyHash(lib), strict);
      check.source := Supplied;
      err := None;
    }

    method MatchesAddress(lib: Library, addr: bytes, opts: seq<VerifyOption>)
      returns (check: AddressCheck?, err: Option<Error>)
      ensures check == null <==> err.Some?
      ensures check != null ==> fresh(check) && MatchesValue(lib, addr, opts) == Success(check.View())
      ensures check == null ==> MatchesValue(lib, addr, opts) == Failure(err.value)
    {
      var cfg := ApplyOptions(opts);
      if cfg.Failure? {
        return null, Some(cfg.error);
      }
      check, err := CheckSupplied(lib, addr, cfg.value.strict);
    }

    method MatchEmbeddedAddress(lib: Library, strict: bool) returns (check: AddressCheck?, err: Option<Error>)
      ensures check == null <==> err.Some?
      ensures check != null ==> fresh(check) && EmbeddedValue(lib, strict) == Success(check.View())
      ensures check == null ==> EmbeddedValue(lib, strict) == Failure(err.value)
    {
      var raw := Cose.Content(address);
      if |raw| == 0 {
        return null, Some(NoEmbeddedAddress);
      }
      var decoded, cause := Addresses.Parse(raw);
      if decoded == null {
        return null, Some(DecodeAddress(cause.value));
      }
      ParseKeepsRaw(raw, decoded.View());
      check := MatchAddress(decoded, KeyHash(lib), strict);
      check.source := Embedded;
      err := None;
    }

    function CheckValue(lib: Library, cfg: Config): Result<CheckView, Error> {
      if cfg.useEmbedded then EmbeddedValue(lib, cfg.strict)
      else SuppliedValue(lib, cfg.address, cfg.strict)
    }

    method CheckAddress(lib: Library, cfg: Config) returns (check: AddressCheck?, err: Option<Error>)
      ensures check == null <==> err.Some?
      ensures check != null ==> fresh(check) && CheckValue(lib, cfg) == Success(check.View())
      ensures check == null ==> CheckValue(lib, cfg) == Failure(err.value)
    {
      if cfg.useEmbedded {
        check, err := MatchEmbeddedAddress(lib, cfg.strict);
      } else {
        check, err := CheckSupplied(lib, cfg.address, cfg.strict);
      }
    }
  }

  lemma DecodedIsParsed(checksums: set<Bech32.state>, addr: bytes)
    ensures DecodeValue(checksums, addr).Success? ==>
              ParseValue(DecodeValue(checksums, addr).value.raw) == DecodeValue(checksums, addr)
  {
    if DecodeValue(checksums, addr).Success? {
      DecodeAccepts(checksums, addr, DecodeValue(checksums, addr).value);
    }
  }

  function Parse(ds: DataSignature): Result<Signature, Error> {
    match Hex.Decode(ds.signature)
    case None => Failure(InvalidSignatureHex)
    case Some(sigBytes) =>
      match Hex.Decode(ds.key)
      case None => Failure(InvalidKeyHex)
      case Some(keyBytes) =>
        match Cose.DecodeSign1(sigBytes)
        case Failure(e) => Failure(DecodeSignature(e))
        case Success(s) =>
          match Cose.DecodeKey(keyBytes)
          case Failure(e) => Failure(DecodeKey(e))
          case Success(x) =>
            Success(Signature(x, s.payload, s.hashed, s.address, s.protectedRaw, s.signature))
  }

  // ----- The one-shot call -----

  /** What a VerifyResult object says. */
  datatype Outcome = Outcome(signatureValid: bool, message: Option<MessageCheck>, address: Option<CheckView>,
                             publicKey: bytes, keyHash: bytes)
  {
    predicate Valid() {
      && signatureValid
      && (message.Some? ==> message.value.matched)
      && (address.Some? ==> address.value.matched)
    }
  }

  class VerifyResult {
    var signatureValid: bool
    var message: Option<MessageCheck>
    var address: AddressCheck?
    var publicKey: bytes
    var keyHash: bytes

    constructor (signatureValid: bool, publicKey: bytes, keyHash: bytes)
      ensures View() == Outcome(signatureValid, None, None, publicKey, keyHash)
      ensures address == null
    {
      this.signatureValid := signatureValid;
      this.message := None;
      this.address := null;
      this.publicKey := publicKey;
      this.keyHash := keyHash;
    }

    function View(): Outcome
      reads this, address
    {
      Outcome(signatureValid, message, if address == null then None else Some(address.View()), publicKey, keyHash)
    }

    method Valid() returns (ok: bool)
      ensures ok == View().Valid()
    {
      if !signatureValid {
        return false;
      }
      if message.Some? && !message.value.matched {
        return false;
      }
      if address != null && !address.matched {
        return false;
      }
      return true;
    }
  }

  /** The outcome of Verify, as a value. */
  function VerifyValue(lib: Library, ds: DataSignature, opts: seq<VerifyOption>): Result<Outcome, Error> {
    match OptionsValue(opts)
    case Failure(e) => Failure(e)
    case Success(cfg) =>
      match Parse(ds)
      case Failure(e) => Failure(e)
      case Success(s) =>
        var message := if cfg.hasMessage then Some(s.VerifyMessage(lib, cfg.message)) else None;
        var o := Outcome(s.SignatureValid(lib, cfg), message, None, s.publicKey, s.KeyHash(lib));
        if !cfg.hasAddress && !cfg.useEmbedded then Success(o) else
        match s.CheckValue(lib, cfg)
        case Failure(e) => Failure(e)
        case Success(check) => Success(o.(address := Some(check)))
  }

  method Verify(lib: Library, ds: DataSignature, opts: seq<VerifyOption>)
    returns (result: VerifyResult?, err: Option<Error>)
    ensures result == null <==> err.Some?
    ensures result != null ==> fresh(result) && VerifyValue(lib, ds, opts) == Success(result.View())
    ensures result == null ==> VerifyValue(lib, ds, opts) == Failure(err.value)
  {
    hide Parse, OptionsValue;
    var options := ApplyOptions(opts);
    if options.Failure? {
      return null, Some(options.error);
    }
    var cfg := options.value;
    var parsed := Parse(ds);
    if parsed.Failure? {
      return null, Some(parsed.error);
    }
    var signature := parsed.value;
    var r := new VerifyResult(signature.SignatureValid(lib, cfg), signature.publicKey, signature.KeyHash(lib));
    if cfg.hasMessage {
      r.message := Some(signature.VerifyMessage(lib, cfg.message));
    }
    if cfg.hasAddress || cfg.useEmbedded {
      var check, cause := signature.CheckAddress(lib, cfg);
      if check == null {
        return null, cause;
      }
      r.address := check;
    }
    return r, None;
  }
}
