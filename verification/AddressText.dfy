/**
 * Address strings in numbers: which texts stand for a raw address, and which error the others
 * get, said with the characters of the text and the header byte alone.
 */
module AddressText {
  import opened Bytes
  import opened Addresses
  import opened Bech32
  import opened Bech32Words
  import opened Bech32Text
  import Hex

  // ----- Bech32 texts -----

  /** The text is bech32 for a prefix and bytes, under an accepted constant. */
  ghost predicate IsBech32(checksums: set<state>, s: bytes, hrp: bytes, raw: bytes) {
    exists t, data :: WordBits(t) in checksums && Reads(t, s, hrp, data) && Regrouped(data[..|data| - 6], raw)
  }

  /** The prefix a header byte calls for, on either of the two networks. */
  function PrefixFor(header: byte): (hrp: bytes)
    requires header % 16 <= 1
  {
    if header / 16 >= 14 then
      if header % 16 == 1 then Ascii("stake") else Ascii("stake_test")
    else
      if header % 16 == 1 then Ascii("addr") else Ascii("addr_test")
  }

  lemma PrefixTexts()
    ensures HRP_MAINNET_PAYMENT == Ascii("addr") && HRP_TESTNET_PAYMENT == Ascii("addr_test")
    ensures HRP_MAINNET_STAKE == Ascii("stake") && HRP_TESTNET_STAKE == Ascii("stake_test")
  {
  }

  /** A text that stands for a raw address: its bech32, or its hex when that is not bech32 of anything. */
  ghost predicate Written(checksums: set<state>, s: bytes, raw: bytes)
    requires raw != []
  {
    || (raw[0] % 16 <= 1 && IsBech32(checksums, s, PrefixFor(raw[0]), raw))
    || (Hex.SpelledInHex(s, raw) && forall hrp, b :: !IsBech32(checksums, s, hrp, b))
  }

  lemma PrefixInNumbers(raw: bytes)
    requires ParseValue(raw).Success?
    ensures var v := ParseValue(raw).value;
            PrefixOf(v.network, IsReward(v.addrType)) == if raw[0] % 16 <= 1 then Some(PrefixFor(raw[0])) else None
  {
    hide Ascii;
    PrefixTexts();
  }

  lemma NotBech32(checksums: set<state>, s: bytes)
    ensures Bech32.Decode(checksums, s) == None <==> forall hrp, raw :: !IsBech32(checksums, s, hrp, raw)
  {
    hide Bech32.Decode;
    forall hrp, raw ensures IsBech32(checksums, s, hrp, raw) <==> Bech32.Decode(checksums, s) == Some((hrp, raw)) {
      Bech32Text.DecodeInNumbers(checksums, s, hrp, raw);
    }
    if Bech32.Decode(checksums, s).Some? {
      var (hrp, raw) := Bech32.Decode(checksums, s).value;
      assert IsBech32(checksums, s, hrp, raw);
    }
  }

  /** The accepted texts of an address, in numbers. */
  lemma AcceptedTexts(checksums: set<state>, s: bytes, raw: bytes)
    requires ParseValue(raw).Success?
    ensures raw != []
    ensures DecodeValue(checksums, s) == ParseValue(raw) <==> Written(checksums, s, raw)
  {
    hide Bech32.Decode, Hex.Decode, ParseValue, IsBech32, Bech32.MixedCase, Hex.SpelledInHex, CheckHrp, PrefixFor;
    var v := ParseValue(raw).value;
    ParseKeepsRaw(raw, v);
    PrefixInNumbers(raw);
    NotBech32(checksums, s);
    Hex.DecodeInNumbers(s, raw);
    Bech32.EmptyFails(checksums);
    EmptyHex();
    if Bech32.Decode(checksums, s).Some? {
      var (hrp, b) := Bech32.Decode(checksums, s).value;
      DecodedIs(checksums, s, hrp, b);
      if ParseValue(b).Success? {
        ParseKeepsRaw(b, ParseValue(b).value);
        CheckHrpExact(hrp, ParseValue(b).value);
      }
      if raw[0] % 16 <= 1 {
        DecodedIs(checksums, s, PrefixFor(raw[0]), raw);
      }
    } else {
      if Hex.Decode(s).Some? && ParseValue(Hex.Decode(s).value).Success? {
        ParseKeepsRaw(Hex.Decode(s).value, ParseValue(Hex.Decode(s).value).value);
      }
    }
  }

  lemma DecodedIs(checksums: set<state>, s: bytes, hrp: bytes, raw: bytes)
    ensures Bech32.Decode(checksums, s) == Some((hrp, raw)) <==> IsBech32(checksums, s, hrp, raw)
  {
    Bech32Text.DecodeInNumbers(checksums, s, hrp, raw);
  }

  lemma EmptyHex()
    ensures Hex.Decode([]) == Some([])
  {
  }

  // ----- Errors -----

  /** Which error a raw address gets, from its header byte and its length. */
  lemma RawErrors(raw: bytes)
    ensures raw == [] ==> ParseValue(raw) == Failure(TooShort)
    ensures raw != [] ==>
              var t, n := raw[0] / 16, |raw|;
              var long := t in {0, 1, 2, 3};
              var short := t in {6, 7, 14, 15};
              && (!long && !short ==> ParseValue(raw) == Failure(UnsupportedType))
              && ((long && n < 57) || (short && n < 29) ==> ParseValue(raw) == Failure(TooShort))
              && ((long && n > 57) || (short && n > 29) ==> ParseValue(raw) == Failure(TrailingBytes))
              && ((long && n == 57) || (short && n == 29) ==> ParseValue(raw).Success?)
  {
  }

  /** What is read from a raw address: the header byte's halves and the windows of the hashes. */
  lemma RawFields(raw: bytes)
    requires ParseValue(raw).Success?
    ensures |raw| >= 29
    ensures var v, t := ParseValue(raw).value, raw[0] / 16;
            && v.raw == raw && v.header == raw[0] && v.addrType == t && v.network == raw[0] % 16
            && v.payment == (if t >= 14 then Credential(None, false)
                             else Credential(Some(raw[1..29]), t in {1, 3, 7}))
            && v.stake.hash == (if t >= 14 then Some(raw[1..29]) else if t <= 3 then Some(raw[29..]) else None)
            && v.stake.isScript == (t in {2, 3, 15})
  {
    if raw[0] / 16 <= 3 {
      assert raw[29..57] == raw[29..];
    }
  }

  /** What is wrong with a prefix for a header byte: unknown, of the other network, of the other class. */
  function PrefixError(hrp: bytes, header: byte): Option<AddressError> {
    var main := hrp == Ascii("addr") || hrp == Ascii("stake");
    var test := hrp == Ascii("addr_test") || hrp == Ascii("stake_test");
    var stake := hrp == Ascii("stake") || hrp == Ascii("stake_test");
    if !main && !test then Some(InvalidBech32)
    else if header % 16 != (if main then 1 else 0) then Some(NetworkMismatch)
    else if (header / 16 >= 14) != stake then Some(HrpMismatch)
    else None
  }

  /** What the text decodes to, its error included: bech32 first, the payload before the prefix. */
  lemma TextErrors(checksums: set<state>, s: bytes, hrp: bytes, raw: bytes)
    ensures s == [] ==> DecodeValue(checksums, s) == Failure(Empty)
    ensures IsBech32(checksums, s, hrp, raw) && ParseValue(raw).Failure? ==>
              DecodeValue(checksums, s) == ParseValue(raw)
    ensures IsBech32(checksums, s, hrp, raw) && ParseValue(raw).Success? ==>
              match PrefixError(hrp, raw[0])
              case Some(e) => DecodeValue(checksums, s) == Failure(e)
              case None => DecodeValue(checksums, s) == ParseValue(raw)
    ensures (forall h, b :: !IsBech32(checksums, s, h, b)) && s != [] ==>
              && (Hex.SpelledInHex(s, raw) ==> DecodeValue(checksums, s) == ParseValue(raw))
              && ((forall b :: !Hex.SpelledInHex(s, b)) ==> DecodeValue(checksums, s) == Failure(InvalidBech32))
  {
    hide Bech32.Decode, Hex.Decode, IsBech32, Hex.SpelledInHex, Ascii;
    PrefixTexts();
    PrefixesDiffer();
    NotBech32(checksums, s);
    Bech32.EmptyFails(checksums);
    DecodedIs(checksums, s, hrp, raw);
    Hex.DecodeInNumbers(s, raw);
    if Hex.Decode(s).Some? {
      Hex.DecodeInNumbers(s, Hex.Decode(s).value);
    }
  }

  lemma PrefixesDiffer()
    ensures HRP_MAINNET_PAYMENT != HRP_MAINNET_STAKE && HRP_MAINNET_PAYMENT != HRP_TESTNET_PAYMENT
    ensures HRP_MAINNET_PAYMENT != HRP_TESTNET_STAKE && HRP_TESTNET_PAYMENT != HRP_MAINNET_STAKE
    ensures HRP_TESTNET_PAYMENT != HRP_TESTNET_STAKE && HRP_MAINNET_STAKE != HRP_TESTNET_STAKE
  {
    assert HRP_MAINNET_PAYMENT[0] == HRP_TESTNET_PAYMENT[0] == 0x61;
    assert HRP_MAINNET_STAKE[0] == HRP_TESTNET_STAKE[0] == 0x73;
    assert |HRP_MAINNET_PAYMENT| < |HRP_TESTNET_PAYMENT| && |HRP_MAINNET_STAKE| < |HRP_TESTNET_STAKE|;
  }
}
