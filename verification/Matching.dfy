/** How a key hash is matched against a decoded address (package cip30, address.go). */
module Matching {
  import opened Bytes
  import opened Addresses

  datatype MatchedVia = NoCredential | PaymentCredential | StakeCredential

  datatype Source = Supplied | Embedded

  datatype Category = Base | Pointer | Enterprise | Reward

  datatype NetworkName = Testnet | Mainnet | Unknown

  /** What an AddressCheck object reports. */
  datatype CheckView = CheckView(matched: bool, via: MatchedVia, strict: bool, source: Source,
                                 category: Category, network: NetworkName)

  function CategoryOf(t: nat): Category {
    if t <= 3 then Base
    else if t == 4 || t == 5 then Pointer
    else if t == 6 || t == 7 then Enterprise
    else if t == 14 || t == 15 then Reward
    else Base
  }

  function NetworkOf(n: nat): NetworkName {
    if n == MAINNET then Mainnet else if n == TESTNET then Testnet else Unknown
  }

  /** Types 0 and 1 carry a delegation key hash. */
  predicate IsBase(t: nat) { t == 0 || t == 1 }

  predicate CredentialMatches(c: Credential, keyHash: bytes) {
    c.hash.Some? && !c.isScript && c.hash.value == keyHash
  }

  class AddressCheck {
    var matched: bool
    var via: MatchedVia
    var strict: bool
    var source: Source
    var category: Category
    var network: NetworkName

    constructor (strict: bool, category: Category, network: NetworkName)
      ensures View() == CheckView(false, NoCredential, strict, Supplied, category, network)
    {
      this.matched := false;
      this.via := NoCredential;
      this.strict := strict;
      this.source := Supplied;
      this.category := category;
      this.network := network;
    }

    function View(): CheckView
      reads this
    {
      CheckView(matched, via, strict, source, category, network)
    }
  }

  /** The rules: which bytes of a raw address hold a hash the key may match. */
  predicate PaymentKeyMatches(raw: bytes, keyHash: bytes)
    requires ParseValue(raw).Success?
  {
    raw[0] / 16 in {0, 2, 6} && raw[1..29] == keyHash
  }

  predicate StakeKeyMatches(raw: bytes, keyHash: bytes)
    requires ParseValue(raw).Success?
  {
    || (raw[0] / 16 in {0, 1} && raw[29..57] == keyHash)
    || (raw[0] / 16 == 14 && raw[1..29] == keyHash)
  }

  /** The outcome those rules call for. */
  function CheckOf(raw: bytes, keyHash: bytes, strict: bool, source: Source): CheckView
    requires ParseValue(raw).Success?
  {
    var t := raw[0] / 16;
    var via := if PaymentKeyMatches(raw, keyHash) then PaymentCredential
               else if StakeKeyMatches(raw, keyHash) then StakeCredential
               else NoCredential;
    CheckView(via == PaymentCredential || (via == StakeCredential && (t == 14 || !strict)),
              via, strict, source, CategoryOf(t), NetworkOf(raw[0] % 16))
  }

  method MatchAddress(addr: Address, keyHash: bytes, strict: bool) returns (check: AddressCheck)
    requires ParseValue(addr.raw) == Success(addr.View())
    ensures fresh(check)
    ensures check.View() == CheckOf(addr.raw, keyHash, strict, Supplied)
  {
    check := new AddressCheck(strict, CategoryOf(addr.addrType), NetworkOf(addr.network));
    if CredentialMatches(addr.payment, keyHash) {
      check.via := PaymentCredential;
      check.matched := true;
    } else if IsReward(addr.addrType) && CredentialMatches(addr.stake, keyHash) {
      check.via := StakeCredential;
      check.matched := true;
    } else if IsBase(addr.addrType) && CredentialMatches(addr.stake, keyHash) {
      check.via := StakeCredential;
      check.matched := !strict;
    }
  }

  // ----- What the policy guarantees -----

  /** What a match says about the address's key hashes and what strict mode takes away. */
  lemma MatchPolicy(raw: bytes, keyHash: bytes, source: Source)
    requires ParseValue(raw).Success?
    ensures var v := ParseValue(raw).value;
            var lax, strict := CheckOf(raw, keyHash, false, source), CheckOf(raw, keyHash, true, source);
            && strict.via == lax.via
            && (strict.matched ==> lax.matched)
            && (lax.matched <==> CredentialMatches(v.payment, keyHash) || CredentialMatches(v.stake, keyHash))
            && (lax.matched <==> lax.via != NoCredential)
            && (strict.matched != lax.matched <==> lax.category == Base && lax.via == StakeCredential)
            && (lax.via == PaymentCredential <==> CredentialMatches(v.payment, keyHash))
            && (lax.via == StakeCredential <==>
                  CredentialMatches(v.stake, keyHash) && !CredentialMatches(v.payment, keyHash))
            && lax.category != Pointer
  {
  }

  /** A hash that an address holds as a script hash only is never matched. */
  lemma ScriptsNeverMatch(raw: bytes, keyHash: bytes, strict: bool, source: Source)
    requires ParseValue(raw).Success?
    requires var v := ParseValue(raw).value;
             && (v.payment.hash == Some(keyHash) ==> v.payment.isScript)
             && (v.stake.hash == Some(keyHash) ==> v.stake.isScript)
    ensures !CheckOf(raw, keyHash, strict, source).matched
    ensures CheckOf(raw, keyHash, strict, source).via == NoCredential
  {
  }

  /** The same address on another network matches the same keys in the same way. */
  lemma NetworkDoesNotMatter(raw: bytes, network: nat, keyHash: bytes, strict: bool, source: Source)
    requires ParseValue(raw).Success? && network < 16
    ensures var raw' := raw[0 := raw[0] / 16 * 16 + network];
            && ParseValue(raw').Success?
            && var c, c' := CheckOf(raw, keyHash, strict, source), CheckOf(raw', keyHash, strict, source);
               c'.matched == c.matched && c'.via == c.via && c' == c.(network := NetworkOf(network))
  {
    var raw' := raw[0 := raw[0] / 16 * 16 + network];
    assert raw'[0] / 16 == raw[0] / 16 && raw'[0] % 16 == network;
    assert raw'[1..29] == raw[1..29];
    if |raw| == 57 {
      assert raw'[29..57] == raw[29..57];
    }
  }
}
