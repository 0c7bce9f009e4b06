/** Cardano addresses (CIP-19) as package address decodes them. */
module Addresses {
  import opened Bytes
  import Hex
  import Bech32

  datatype AddressError =
    | Empty
    | InvalidBech32
    | TooShort
    | TrailingBytes
    | UnsupportedType
    | NetworkMismatch
    | HrpMismatch

  const TESTNET := 0
  const MAINNET := 1

  const HASH_SIZE := 28
  const PAYMENT_LEN := 29
  const BASE_LEN := 57

  // "addr", "addr_test", "stake" and "stake_test" in ASCII.
  const HRP_MAINNET_PAYMENT: bytes := [0x61, 0x64, 0x64, 0x72]
  const HRP_TESTNET_PAYMENT: bytes := [0x61, 0x64, 0x64, 0x72, 0x5f, 0x74, 0x65, 0x73, 0x74]
  const HRP_MAINNET_STAKE: bytes := [0x73, 0x74, 0x61, 0x6b, 0x65]
  const HRP_TESTNET_STAKE: bytes := [0x73, 0x74, 0x61, 0x6b, 0x65, 0x5f, 0x74, 0x65, 0x73, 0x74]

  /** One part of an address; no hash means the part is absent. */
  datatype Credential = Credential(hash: Option<bytes>, isScript: bool)

  const ABSENT := Credential(None, false)

  /** What an Address object says. */
  datatype Decoded = Decoded(raw: bytes, header: byte, network: nat, addrType: nat,
                             payment: Credential, stake: Credential)

  // ----- Raw addresses -----

  function CheckLen(raw: bytes, want: nat): Option<AddressError> {
    if |raw| < want then Some(TooShort)
    else if |raw| > want then Some(TrailingBytes)
    else None
  }

  predicate PaymentIsScript(t: nat) { t % 2 == 1 }

  predicate BaseStakeIsScript(t: nat) { t == 2 || t == 3 }

  predicate IsReward(t: nat) { t == 14 || t == 15 }

  /** The one length a raw address of a type may have. */
  function CanonicalLen(t: nat): Option<nat> {
    if t <= 3 then Some(BASE_LEN)
    else if t == 6 || t == 7 || IsReward(t) then Some(PAYMENT_LEN)
    else None
  }

  /** The payment part that the header byte and the byte windows call for. */
  function PaymentPart(raw: bytes): Credential
    requires |raw| >= PAYMENT_LEN
  {
    var t := raw[0] / 16;
    if t <= 7 then Credential(Some(raw[1..29]), PaymentIsScript(t)) else ABSENT
  }

  function StakePart(raw: bytes): Credential
    requires |raw| >= PAYMENT_LEN && (raw[0] / 16 <= 3 ==> |raw| >= BASE_LEN)
  {
    var t := raw[0] / 16;
    if t <= 3 then Credential(Some(raw[29..57]), BaseStakeIsScript(t))
    else if IsReward(t) then Credential(Some(raw[1..29]), t == 15)
    else ABSENT
  }

  /** The outcome of parsing, as a value. */
  function ParseValue(raw: bytes): Result<Decoded, AddressError> {
    if |raw| < 1 then Failure(TooShort) else
    match CanonicalLen(raw[0] / 16)
    case None => Failure(UnsupportedType)
    case Some(want) =>
      match CheckLen(raw, want)
      case Some(e) => Failure(e)
      case None =>
        Success(Decoded(raw, raw[0], raw[0] % 16, raw[0] / 16, PaymentPart(raw), StakePart(raw)))
  }

  class Address {
    var raw: bytes
    var header: byte
    var network: nat
    var addrType: nat
    var payment: Credential
    var stake: Credential

    function View(): Decoded
      reads this
    {
      Decoded(raw, header, network, addrType, payment, stake)
    }

    constructor (raw: bytes)
      requires |raw| >= 1
      ensures View() == Decoded(raw, raw[0], raw[0] % 16, raw[0] / 16, ABSENT, ABSENT)
    {
      this.raw := raw;
      this.header := raw[0];
      this.network := raw[0] % 16;
      this.addrType := raw[0] / 16;
      this.payment := ABSENT;
      this.stake := ABSENT;
    }

    /** Types 0-3: payment hash, then delegation hash. */
    method FillBase() returns (err: Option<AddressError>)
      modifies this`payment, this`stake
      ensures err == CheckLen(raw, BASE_LEN)
      ensures err.Some? ==> View() == old(View())
      ensures err.None? ==> payment == Credential(Some(raw[1..29]), PaymentIsScript(addrType))
      ensures err.None? ==> stake == Credential(Some(raw[29..57]), BaseStakeIsScript(addrType))
    {
      err := CheckLen(raw, BASE_LEN);
      if err.Some? {
        return;
      }
      payment := Credential(Some(raw[1..PAYMENT_LEN]), PaymentIsScript(addrType));
      stake := Credential(Some(raw[PAYMENT_LEN..BASE_LEN]), BaseStakeIsScript(addrType));
    }

    /** Types 6-7: payment hash only. */
    method FillEnterprise() returns (err: Option<AddressError>)
      modifies this`payment
      ensures err == CheckLen(raw, PAYMENT_LEN)
      ensures err.Some? ==> payment == old(payment)
      ensures err.None? ==> payment == Credential(Some(raw[1..29]), PaymentIsScript(addrType))
    {
      err := CheckLen(raw, PAYMENT_LEN);
      if err.Some? {
        return;
      }
      payment := Credential(Some(raw[1..PAYMENT_LEN]), PaymentIsScript(addrType));
    }

    /** Types 14-15: stake hash only. */
    method FillReward() returns (err: Option<AddressError>)
      modifies this`stake
      ensures err == CheckLen(raw, PAYMENT_LEN)
      ensures err.Some? ==> stake == old(stake)
      ensures err.None? ==> stake == Credential(Some(raw[1..29]), addrType == 15)
    {
      err := CheckLen(raw, PAYMENT_LEN);
      if err.Some? {
        return;
      }
      stake := Credential(Some(raw[1..PAYMENT_LEN]), addrType == 15);
    }
  }

  method Parse(raw: bytes) returns (addr: Address?, err: Option<AddressError>)
    ensures addr == null <==> err.Some?
    ensures addr != null ==> fresh(addr) && ParseValue(raw) == Success(addr.View())
    ensures addr == null ==> ParseValue(raw) == Failure(err.value)
  {
    if |raw| < 1 {
      return null, Some(TooShort);
    }
    var a := new Address(raw);
    if a.addrType <= 3 {
      err := a.FillBase();
    } else if a.addrType == 6 || a.addrType == 7 {
      err := a.FillEnterprise();
    } else if IsReward(a.addrType) {
      err := a.FillReward();
    } else {
      err := Some(UnsupportedType);
    }
    addr := if err.Some? then null else a;
  }

  // ----- What raw addresses are accepted, and what is read from them -----

  function HashOf(c: Credential): bytes {
    if c.hash.Some? then c.hash.value else []
  }

  /** Header and present credentials in order, back as raw bytes. */
  function Serialise(addrType: nat, network: nat, payment: Credential, stake: Credential): seq<int> {
    [addrType * 16 + network] + HashOf(payment) + HashOf(stake)
  }

  /** Exactly the canonical shapes parse. */
  lemma ParseAccepts(raw: bytes)
    ensures ParseValue(raw).Success? <==>
            || (|raw| == 57 && raw[0] / 16 in {0, 1, 2, 3})
            || (|raw| == 29 && raw[0] / 16 in {6, 7, 14, 15})
  {
  }

  /** Parsing loses nothing: the parts partition the bytes after the header. */
  lemma ParseLossless(raw: bytes)
    requires ParseValue(raw).Success?
    ensures var v := ParseValue(raw).value;
            && v.raw == raw
            && Serialise(v.addrType, v.network, v.payment, v.stake) == raw
            && (v.payment.hash.Some? ==> |v.payment.hash.value| == HASH_SIZE)
            && (v.stake.hash.Some? ==> |v.stake.hash.value| == HASH_SIZE)
            && |raw| == 1 + |HashOf(v.payment)| + |HashOf(v.stake)|
  {
    var v := ParseValue(raw).value;
    if v.addrType <= 3 {
      assert raw == [raw[0]] + raw[1..29] + raw[29..57];
    } else {
      assert raw == [raw[0]] + raw[1..29];
    }
  }

  /** Type, network and hashes determine the raw address. */
  lemma ParseInjective(raw: bytes, raw': bytes)
    requires ParseValue(raw).Success? && ParseValue(raw').Success?
    requires var v, v' := ParseValue(raw).value, ParseValue(raw').value;
             && v.addrType == v'.addrType && v.network == v'.network
             && HashOf(v.payment) == HashOf(v'.payment) && HashOf(v.stake) == HashOf(v'.stake)
    ensures raw == raw'
  {
    ParseLossless(raw);
    ParseLossless(raw');
  }

  // ----- Address strings -----

  /** The prefix's network and class against the header's. */
  function CheckHrp(hrp: bytes, v: Decoded): Option<AddressError> {
    if hrp == HRP_MAINNET_PAYMENT then Agree(MAINNET, false, v)
    else if hrp == HRP_TESTNET_PAYMENT then Agree(TESTNET, false, v)
    else if hrp == HRP_MAINNET_STAKE then Agree(MAINNET, true, v)
    else if hrp == HRP_TESTNET_STAKE then Agree(TESTNET, true, v)
    else Some(InvalidBech32)
  }

  function Agree(want: nat, wantReward: bool, v: Decoded): Option<AddressError> {
    if want != v.network then Some(NetworkMismatch)
    else if wantReward != IsReward(v.addrType) then Some(HrpMismatch)
    else None
  }

  /** The outcome of decoding an address string under the checksum constants the codec accepts. */
  function DecodeValue(checksums: set<Bech32.state>, addr: bytes): Result<Decoded, AddressError> {
    if addr == [] then Failure(Empty) else
    match Bech32.Decode(checksums, addr)
    case Some((hrp, raw)) => ParseUnder(hrp, raw)
    case None =>
      match Hex.Decode(addr)
      case None => Failure(InvalidBech32)
      case Some(raw) => ParseValue(raw)
  }

  /** Parsing a payload that came with a prefix. */
  function ParseUnder(hrp: bytes, raw: bytes): Result<Decoded, AddressError> {
    match ParseValue(raw)
    case Failure(e) => Failure(e)
    case Success(v) => if CheckHrp(hrp, v).Some? then Failure(CheckHrp(hrp, v).value) else Success(v)
  }

  method Decode(checksums: set<Bech32.state>, addr: bytes) returns (parsed: Address?, err: Option<AddressError>)
    ensures parsed == null <==> err.Some?
    ensures parsed != null ==> fresh(parsed) && DecodeValue(checksums, addr) == Success(parsed.View())
    ensures parsed == null ==> DecodeValue(checksums, addr) == Failure(err.value)
  {
    if addr == [] {
      return null, Some(Empty);
    }
    var bech32 := Bech32.Decode(checksums, addr);
    if bech32.Some? {
      var (hrp, raw) := bech32.value;
      parsed, err := Parse(raw);
      if parsed != null && CheckHrp(hrp, parsed.View()).Some? {
        return null, CheckHrp(hrp, parsed.View());
      }
      return;
    }
    var hex := Hex.Decode(addr);
    if hex.None? {
      return null, Some(InvalidBech32);
    }
    parsed, err := Parse(hex.value);
  }

  /** The prefix that fits a network and class; reserved networks have none. */
  function PrefixOf(network: nat, reward: bool): Option<bytes> {
    if network == MAINNET then Some(if reward then HRP_MAINNET_STAKE else HRP_MAINNET_PAYMENT)
    else if network == TESTNET then Some(if reward then HRP_TESTNET_STAKE else HRP_TESTNET_PAYMENT)
    else None
  }

  lemma CheckHrpExact(hrp: bytes, v: Decoded)
    ensures CheckHrp(hrp, v) == None <==> PrefixOf(v.network, IsReward(v.addrType)) == Some(hrp)
  {
    assert HRP_MAINNET_PAYMENT[0] != HRP_MAINNET_STAKE[0] && HRP_MAINNET_PAYMENT[0] != HRP_TESTNET_STAKE[0];
    assert |HRP_MAINNET_PAYMENT| < |HRP_TESTNET_PAYMENT| && |HRP_MAINNET_STAKE| < |HRP_TESTNET_STAKE|;
    assert HRP_TESTNET_PAYMENT[0] != HRP_MAINNET_STAKE[0] && HRP_TESTNET_PAYMENT[0] != HRP_TESTNET_STAKE[0];
  }

  lemma PrefixIsValid(network: nat, reward: bool)
    requires PrefixOf(network, reward).Some?
    ensures Bech32.ValidHrp(PrefixOf(network, reward).value)
  {
    var hrp := PrefixOf(network, reward).value;
    assert forall i :: 0 <= i < |hrp| ==> 33 <= hrp[i] <= 126 && LowerByte(hrp[i]) == hrp[i];
    assert Lower(hrp) == hrp;
  }

  /**
   * A bech32-encoded raw address decodes to what its bytes parse to, under the one prefix its
   * network and class require and under no other.
   */
  lemma Bech32RoundTrip(checksums: set<Bech32.state>, t: Bech32.state, hrp: bytes, raw: bytes)
    requires Bech32.ValidHrp(hrp) && t in checksums
    ensures DecodeValue(checksums, Bech32.Encode(t, hrp, raw)) == ParseUnder(hrp, raw)
    ensures ParseUnder(hrp, raw).Success? <==>
            && ParseValue(raw).Success?
            && var v := ParseValue(raw).value; PrefixOf(v.network, IsReward(v.addrType)) == Some(hrp)
    ensures ParseUnder(hrp, raw).Success? ==> ParseUnder(hrp, raw) == ParseValue(raw)
  {
    hide Bech32.Encode, Bech32.Decode, ParseValue, CheckHrp, PrefixOf;
    Bech32.RoundTrip(checksums, t, hrp, raw);
    Bech32.EmptyFails(checksums);
    if ParseValue(raw).Success? {
      CheckHrpExact(hrp, ParseValue(raw).value);
    }
  }

  lemma CanonicalRoundTrip(checksums: set<Bech32.state>, t: Bech32.state, raw: bytes)
    requires ParseValue(raw).Success? && t in checksums
    requires ParseValue(raw).value.network <= 1
    ensures var v := ParseValue(raw).value;
            DecodeValue(checksums, Bech32.Encode(t, PrefixOf(v.network, IsReward(v.addrType)).value, raw)) == Success(v)
  {
    var v := ParseValue(raw).value;
    PrefixIsValid(v.network, IsReward(v.addrType));
    Bech32RoundTrip(checksums, t, PrefixOf(v.network, IsReward(v.addrType)).value, raw);
  }

  /** A bech32 spelling of a decoded address, and any spelling in hexadecimal. */
  ghost predicate Bech32Spelling(checksums: set<Bech32.state>, s: bytes, v: Decoded) {
    var prefix := PrefixOf(v.network, IsReward(v.addrType));
    prefix.Some? && Bech32.Spells(checksums, Lower(s), prefix.value, v.raw) && !Bech32.MixedCase(s)
  }

  ghost predicate HexSpelling(checksums: set<Bech32.state>, s: bytes, v: Decoded) {
    Lower(s) == Hex.Encode(v.raw) && Bech32.Decode(checksums, s) == None
  }

  lemma ParseKeepsRaw(raw: bytes, v: Decoded)
    ensures ParseValue(raw) == Success(v) ==> v.raw == raw && raw != []
  {
  }

  /** The whole accepted language: an address has its bech32 spellings and its hex spellings. */
  lemma DecodeAccepts(checksums: set<Bech32.state>, s: bytes, v: Decoded)
    ensures DecodeValue(checksums, s) == Success(v) <==>
            ParseValue(v.raw) == Success(v) && (Bech32Spelling(checksums, s, v) || HexSpelling(checksums, s, v))
  {
    hide Bech32.Spells, Bech32.Decode, ParseValue, PrefixOf, Bech32.MixedCase, Hex.Encode, Hex.Decode, CheckHrp;
    var prefix := PrefixOf(v.network, IsReward(v.addrType));
    Bech32.EmptyFails(checksums);
    HexOfEmpty(s, v.raw);
    Hex.DecodeIsAnySpelling(s, v.raw);
    ParseKeepsRaw(v.raw, v);
    if prefix.Some? {
      Bech32.DecodeExact(checksums, s, prefix.value, v.raw);
      PrefixIsValid(v.network, IsReward(v.addrType));
    }
    if Bech32.Decode(checksums, s).Some? {
      var (hrp, raw) := Bech32.Decode(checksums, s).value;
      ParseKeepsRaw(raw, v);
      CheckHrpExact(hrp, v);
    } else if Hex.Decode(s).Some? {
      ParseKeepsRaw(Hex.Decode(s).value, v);
    }
  }

  lemma HexOfEmpty(s: bytes, raw: bytes)
    ensures s == [] && Lower(s) == Hex.Encode(raw) ==> raw == []
  {
    assert s == [] ==> |Lower(s)| == 0;
  }

  /**
   * Bech32 spellings of one address share prefix and data symbols up to letter case; where the
   * codec accepts a single constant they are one string.
   */
  lemma Bech32SpellingUnique(checksums: set<Bech32.state>, s: bytes, t: bytes)
    requires Bech32.Decode(checksums, s).Some? && Bech32.Decode(checksums, t).Some?
    requires DecodeValue(checksums, s).Success? && DecodeValue(checksums, t).Success?
    requires DecodeValue(checksums, s).value.raw == DecodeValue(checksums, t).value.raw
    ensures DecodeValue(checksums, s) == DecodeValue(checksums, t)
    ensures |s| == |t| && Lower(s)[..|s| - 6] == Lower(t)[..|t| - 6]
    ensures (forall c, d :: c in checksums && d in checksums ==> c == d) ==> Lower(s) == Lower(t)
  {
    hide Bech32.Decode, DecodeValue, Bech32.Encode, PrefixOf, ParseValue, Hex.Encode, Bech32.MixedCase;
    var v, w := DecodeValue(checksums, s).value, DecodeValue(checksums, t).value;
    DecodeAccepts(checksums, s, v);
    DecodeAccepts(checksums, t, w);
    var hrp := PrefixOf(v.network, IsReward(v.addrType)).value;
    var c :| c in checksums && Lower(s) == Bech32.Encode(c, hrp, v.raw);
    var d :| d in checksums && Lower(t) == Bech32.Encode(d, hrp, v.raw);
    Bech32.SpellingsShareData(c, d, hrp, v.raw);
    assert |Lower(s)| == |s| && |Lower(t)| == |t|;
  }

  lemma PrefixIsNotHex(network: nat, reward: bool)
    requires PrefixOf(network, reward).Some?
    ensures var hrp := PrefixOf(network, reward).value;
            exists k :: 0 <= k < |hrp| && !Hex.IsDigit(hrp[k])
  {
    var hrp := PrefixOf(network, reward).value;
    if reward {
      assert !Hex.IsDigit(hrp[0]);
    } else {
      assert !Hex.IsDigit(hrp[3]);
    }
  }

  /** No string is accepted as bech32 that could have been read as hex. */
  lemma InputLanguagesDisjoint(checksums: set<Bech32.state>, s: bytes)
    requires Bech32.Decode(checksums, s).Some? && DecodeValue(checksums, s).Success?
    ensures Hex.Decode(s) == None
  {
    hide Bech32.Decode, Hex.Decode, ParseValue, PrefixOf, Bech32.Encode, Hex.IsDigit, DecodeValue;
    var v := DecodeValue(checksums, s).value;
    DecodeAccepts(checksums, s, v);
    var reward := IsReward(v.addrType);
    PrefixIsNotHex(v.network, reward);
    var hrp := PrefixOf(v.network, reward).value;
    var k :| 0 <= k < |hrp| && !Hex.IsDigit(hrp[k]);
    var t :| t in checksums && Lower(s) == Bech32.Encode(t, hrp, v.raw);
    Bech32.EncodeStarts(t, hrp, v.raw);
    assert Lower(s)[k] == hrp[k];
    LowerKeepsHex(s[k]);
    Hex.DecodeDefined(s);
  }

  lemma LowerKeepsHex(c: byte)
    ensures Hex.IsDigit(c) ==> Hex.IsDigit(LowerByte(c))
  {
  }

  /**
   * Hex spellings of a canonical address are read as that address exactly when they do not
   * happen to be valid bech32; then they are refused.
   */
  lemma HexInput(checksums: set<Bech32.state>, s: bytes, raw: bytes)
    requires Hex.Decode(s) == Some(raw) && raw != []
    ensures Bech32.Decode(checksums, s) == None ==> DecodeValue(checksums, s) == ParseValue(raw)
    ensures Bech32.Decode(checksums, s).Some? ==> DecodeValue(checksums, s).Failure?
    ensures ParseValue(raw).Success? ==>
              (DecodeValue(checksums, s) == ParseValue(raw) <==> Bech32.Decode(checksums, s) == None)
  {
    assert Hex.Decode([]) == Some([]);
    if Bech32.Decode(checksums, s).Some? && DecodeValue(checksums, s).Success? {
      InputLanguagesDisjoint(checksums, s);
    }
  }
}
