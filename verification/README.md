# A verified model of go-cip-30

go-cip-30 verifies CIP-30 data signatures: a hex-encoded COSE_Sign1 and COSE_Key, checked
against an expected message and a Cardano address. This project models the whole path from
the two hex strings to `Valid()` in Dafny and proves what a verdict means.

The primitives are parameters of the model (`Message.Library`): blake2b-224 is any function on
byte strings, Ed25519 verification is any predicate on a key, a message and a signature, and
the constants that a bech32 checksum may come to are any set. Nothing is assumed of them, except
that `Message.PrecomputedDigest` needs hashes of 28 bytes, and that a round trip or a sign-in
under a constant needs that constant accepted. Constant-time comparison is equality.

| module | file | what it holds |
|---|---|---|
| Bytes, Hex | Bytes.dfy, Hex.dfy | byte strings, big-endian integers, hexadecimal |
| Cbor | Cbor.dfy | a CBOR reader and writer on concrete syntax trees that keep head widths |
| CborBytes | CborBytes.dfy | every item in numbers: a second writer, after RFC 8949, that the first agrees with |
| Values | Values.dfy | what an item decodes to in Go, map readings, the strict decode policy |
| Cose, CoseErrors | Cose.dfy, CoseErrors.dfy | package `internal/cose`; which error every input gets |
| Bech32, Bech32Words | Bech32.dfy, Bech32Words.dfy | BIP-173: charset, checksum, regrouping; the checksum register as BIP-173's 30-bit word |
| Bech32Text | Bech32Text.dfy | bech32 read straight from characters: BIP-173's table, expansion, checksum word and regrouping in numbers |
| Addresses, AddressText | Addresses.dfy, AddressText.dfy | package `internal/address`; address texts and their errors in numbers |
| KnownAddress | KnownAddress.dfy | an address of the source's tests, character by character |
| RefusedHex | RefusedHex.dfy | a canonical address whose hex spelling is refused |
| Message, Matching, Cip30 | Message.dfy, Matching.dfy, Cip30.dfy | `message.go`, `address.go`, `cip30.go` |
| OptionOrder | OptionOrder.dfy | reorderings of an option list |
| Verdict | Verdict.dfy | the end-to-end theorems |
| Outcomes | Outcomes.dfy | every field of a result and every error, in numbers |
| Signer | Signer.dfy | the encodings a wallet makes, byte for byte, and the verdict on them |

`dafny verify dfyconfig.toml` checks all of it.

## How the model is built

- Where the source updates state the model is a class with methods: the option closures and
  `applyOptions` on `VerifyConfig`, `Parse` and the three fill methods on `Address`,
  `matchAddress` on `AddressCheck`, `Verify` on `VerifyResult`, and the loop of
  `decodeHexDigest`. Each method is proved equal to a function (`OptionsValue`, `ParseValue`,
  `CheckOf`, `VerifyValue`, `HexDigest`), and the theorems are about those functions. The
  functions are stated in other terms than the methods where the source's meaning allows it:
  options by the subsequences of messages and addresses, addresses by the header byte and the
  canonical lengths, matches by header bits and byte windows.
- The CBOR and bech32 libraries are not in the repository. CBOR follows RFC 8949, sections 3
  and 4.2, and what the comments of `internal/cose` say of the decoder: uint64 and int64 for
  integers, last-wins for `map[any]any`, first-wins for structs, no duplicate keys, null
  decodes to nil. Bech32 follows BIP-173 without its 90-character cap. The set of accepted
  checksum constants is `{ONE}` for BIP-173 alone; a codec that also takes BIP-350 (bech32m)
  accepts one more. The theorems hold for every such set.
- A nil slice is `None`, so nil and empty stay apart. The comment on `Sign1.Payload` calls the
  payload nil both for null and for an empty byte string; the model decodes an empty byte
  string to an empty slice, and `Verdict.NullPayloadIsEmpty` shows that no outcome of Verify
  depends on the difference.
- Lengths are unbounded. A byte string of 2^64 or more bytes has no CBOR head, and
  `Cose.SigStructure` returns its error (`None`) exactly for such strings
  (`Cose.SigStructureDefined`). Statements that spell bytes out (`CborBytes.WireBytesAre`,
  `Cose.SigStructureLayout`, module Signer) ask for lengths below 2^64; the others about signed bytes
  ask at most that `SigStructure` yields them. Nothing else bounds a length.

- What the model computes is also said without its functions. The modules with numbers (CborBytes,
  Bech32Text, AddressText, Outcomes, the end of Signer) state bytes, characters, header nibbles and
  windows as numbers and strings, and `Outcomes.ValidInNumbers` and `Signer.LoginInNumbers` are the
  end-to-end results in those terms.

## A result worth knowing

`WithAddress` is documented to accept bech32 or hex-encoded raw bytes (`cip30.go:126-127`).
For hex that holds exactly when the string does not also happen to be valid bech32
(`Addresses.HexInput`): then the bech32 branch wins and refuses it. `RefusedHex` gives a
canonical mainnet enterprise address for which this happens: header 0x61 and a hash ending in
0f5c20f433. Its spelling reads as bech32 with the prefix "6" and a correct BIP-173 checksum.

## Where to start

The end-to-end results are `Outcomes.ValidInNumbers`, `Outcomes.OutcomeExactly`,
`Signer.LoginInNumbers`, `Verdict.OneMessagePerSignature` and `Verdict.OptionOrderIsIrrelevant`. They
rest on `Cose.DecodeSign1Exact`, `Cose.SigStructureInjective` and `Cose.SigStructureLayout`,
`Addresses.DecodeAccepts`, `Bech32Text.DecodeInNumbers` and the exact inverses in Cbor and Bech32. `Verdict.OneShotIsStepwise` and `Verdict.DetachedVerdictsAgree` are
reading aids: they follow from the definition of `Cip30.VerifyValue`, which `Cip30.Verify` is
proved against, and record how its fields relate to the public calls.

## Model

| member | source | states |
|---|---|---|
| Cbor.ReadWritten | internal/cose/cose.go:149-156 | the item reader undoes the writer on every item, for every choice of head widths, whatever follows (RFC 8949, section 3) |
| Cbor.ReadExact | internal/cose/cose.go:149-156 | what the recursive reader consumed is exactly the encoding of what it returned; it never reads past the end |
| Cbor.UnmarshalExact | internal/cose/cose.go:149-163 | decoding a whole input and encoding an item are inverse bijections, so trailing bytes and truncation are refused |
| Cbor.EncodeInjective | internal/cose/cose.go:280-295 | two items with the same bytes are the same item |
| Cbor.SplitIsPartition | internal/cose/cose.go:149-156 | splitting an array accepts exactly the inputs that are an array head followed by whole items, and the raw elements are those bytes verbatim |
| CborBytes.HeadBytes | internal/cose/cose.go:149-156 | every head in numbers: 32m + n, or 32m + 24 to 27 and the argument in 1, 2, 4 or 8 bytes, big end first (RFC 8949, section 3) |
| CborBytes.ItemBytes | internal/cose/cose.go:280-295 | every item in numbers, for every width: integers, strings, arrays, maps, f4, f5 and f6 |
| CborBytes.ReadInNumbers | internal/cose/cose.go:149-156 | an item is read from exactly those bytes, and what follows is left |
| CborBytes.ShortestIsNarrowest | internal/cose/cose.go:280-295 | the head chosen when encoding is the narrowest that fits |
| CborBytes.WireBytesAre | internal/cose/cose.go:280-295 | a byte string as encoded: its head in numbers by range of length, then its bytes |
| Values.ReadingsAgree | internal/cose/cose.go:39-51 | with distinct keys, first-wins and last-wins readings are both the map the entries denote |
| Values.StrictReadingsAgree | internal/cose/cose.go:39-64 | on every input the strict mode accepts as a map[any]any, both readings agree on every key |
| Cose.KeyReadingsAgree | internal/cose/cose.go:39-64 | on every input accepted as a COSE_Key, the struct's first-wins reading and the last-wins reading agree on every label |
| Values.DuplicatesDiverge | internal/cose/cose.go:39-51 | with a repeated key the two readings are its first and its last value: the ambiguity the policy removes |
| Values.OrderIsIrrelevant | internal/cose/cose.go:39-51 | no order of entries changes what a key maps to under either reading |
| Values.StrictExactly | internal/cose/cose.go:39-64 | the decode policy reaches every depth: a value passes exactly when no map anywhere in it repeats a key or has a key Go cannot hash |
| Values.IntegersDoNotAlias | internal/cose/cose.go:297-313 | asInt64 yields v exactly for encodings of the integer v in the int64 range; larger unsigned and smaller negative values are refused |
| Values.Int64RoundTrip | internal/cose/cose.go:297-313 | every int64, at every head width that fits, decodes and normalises back to itself |
| Cose.DecodeProtectedExact | internal/cose/cose.go:206-227 | a protected header passes with an address exactly when it is a strict map with the integer -8 under label 1 and that address (or no address key) |
| Cose.DecodeHashedExact | internal/cose/cose.go:231-246 | the hashed flag read is the one in the map, false when the map is null or has no such key, and nothing else is accepted |
| Cose.DecodeBytesExact | internal/cose/cose.go:160-163 | a byte string decodes to its content verbatim, null to nil, anything else fails |
| Cose.DecodeSign1Written | internal/cose/cose.go:149-201 | decoding a COSE_Sign1 with any head widths and entry order yields s exactly when the wire form carries s, protected bytes verbatim |
| Cose.DecodeSign1Exact | internal/cose/cose.go:149-201 | an input decodes to s if and only if it is, byte for byte, a wire form that carries s |
| Cose.ReorderedHeaders | internal/cose/cose.go:149-246 | reordering header entries or changing head widths changes neither acceptance nor the error nor any field but the verbatim bytes |
| Cose.SpellingIsSigned | internal/cose/cose.go:20-24 | two spellings of one protected map decode to the same fields and give different signed bytes unless the spellings are equal |
| Cose.AcceptedProtectedIsPresent | internal/cose/cose.go:158-192 | an accepted signature has a non-empty protected header and a 64-byte signature |
| Cose.DecodeKeyExact | internal/cose/cose.go:253-271 | a key decodes to x exactly when it is a map with distinct integer or text labels carrying OKP, EdDSA, Ed25519 and the 32 bytes x |
| Cose.ReorderedKey | internal/cose/cose.go:253-271 | entry order and head widths of a COSE_Key change neither the verdict, the error nor the key |
| Cose.SigStructureInjective | internal/cose/cose.go:280-295 | equal signed bytes mean the same protected slice and, up to nil or empty, the same payload, and conversely |
| Cose.SigStructureDefined | internal/cose/cose.go:280-295 | marshalling fails exactly when a slice has 2^64 bytes or more |
| Cose.SigStructureLayout | internal/cose/cose.go:280-295 | the signed bytes in numbers: 84, 6a and the ten letters of "Signature1", the protected byte string or f6, 40, and the payload byte string |
| CoseErrors.NotFourElements | internal/cose/cose.go:149-156 | InvalidSign1 is the answer exactly when the input is no array of four whole items |
| CoseErrors.ElementErrors | internal/cose/cose.go:158-201 | for any four items the outcome, error or fields, from what they hold: header, alg, hashed flag, payload, signature, length, in that order |
| CoseErrors.KeyErrors | internal/cose/cose.go:253-271 | for any item in place of a key the outcome, error or key, from its entries: decoding, kty, alg, crv, length, in that order |
| Hex.DecodeDefined | cip30.go:198-205 | hex decoding succeeds exactly on an even number of hex digits |
| Hex.DecodeIsAnySpelling | message.go:53-57 | a string decodes to b exactly when it spells b's hex in any mix of cases |
| Hex.DecodeInNumbers | cip30.go:198-205 | a string decodes to b exactly when its pairs of characters count, in base 16, the bytes of b |
| Bech32.ChecksumExact | internal/address/address.go:334-338 | for every target constant, the appended checksum reaches it and no other six symbols do; BIP-173's target is 1 |
| Bech32Words.PolymodAsWord | internal/address/address.go:334-338 | the bit-string register computes what BIP-173's 30-bit reference code computes |
| Bech32.RegroupExact | internal/address/address.go:339-343 | 5-to-8 regrouping yields raw exactly on the zero-padded 8-to-5 groups of raw; longer or non-zero padding is refused |
| Bech32.DecodeExact | internal/address/address.go:334-344 | a string decodes to a prefix and bytes exactly when it is, in one letter case, their encoding under an accepted constant |
| Bech32.SpellingsShareData | internal/address/address.go:334-344 | the encodings of one prefix and payload under two constants agree up to the last six characters, and wholly only for one constant |
| Bech32.RoundTrip | internal/address/address.go:334-344 | every valid prefix and payload survives encoding and decoding |
| Bech32Text.ExpandHrpExact | internal/address/address.go:334-338 | the expansion of a prefix, place by place: high bits, zero, low five bits |
| Bech32Text.RegisterAsWord | internal/address/address.go:334-338 | the checksum of any prefix and symbols is BIP-173's word over the expanded prefix and the symbols |
| Bech32Text.RegroupInNumbers | internal/address/address.go:339-343 | symbols regroup to bytes exactly when they are one number in base 32 and base 256, up to fewer than five zero bits |
| Bech32Text.DecodeInNumbers | internal/address/address.go:334-344 | a string decodes exactly when its characters, by BIP-173's printed table, read as the prefix and symbols of an accepted checksum word that are the bytes |
| Addresses.Address.FillBase | internal/address/address.go:287-294 | exact length, then payment and delegation windows with their script flags; nothing changes on error |
| Addresses.Address.FillEnterprise | internal/address/address.go:299-305 | exact length, then the payment window; nothing changes on error |
| Addresses.Address.FillReward | internal/address/address.go:309-315 | exact length, then the stake window; nothing changes on error |
| Addresses.Parse | internal/address/address.go:220-266 | the object built is the one the header byte, the canonical length and the byte windows call for, or the error is |
| Addresses.ParseAccepts | internal/address/address.go:220-280 | exactly types 0-3 at 57 bytes and types 6, 7, 14, 15 at 29 bytes parse |
| Addresses.ParseLossless | internal/address/address.go:220-315 | type, network and present hashes serialise back to the raw bytes; the 28-byte hashes partition what follows the header |
| Addresses.ParseInjective | internal/address/address.go:220-315 | addresses with equal type, network and hashes have equal raw bytes |
| Addresses.CheckHrpExact | internal/address/address.go:354-380 | a prefix passes exactly when it is the one for the header's network and class; reserved networks have none |
| Addresses.Decode | internal/address/address.go:180-205 | the object or error is that of bech32 first, hex second |
| Addresses.Bech32RoundTrip | internal/address/address.go:180-195 | encoding any bytes under any valid prefix and decoding parses those bytes, accepted under their one prefix only |
| Addresses.CanonicalRoundTrip | internal/address/address.go:180-195 | every canonical mainnet or testnet address, encoded under its prefix and an accepted constant, decodes to its parse |
| Addresses.DecodeAccepts | internal/address/address.go:180-205 | the whole accepted language: a bech32 spelling under the right prefix and an accepted constant, or any hex spelling that is not itself valid bech32 |
| Addresses.Bech32SpellingUnique | internal/address/address.go:180-195 | two accepted bech32 strings for one raw address have the same prefix and data symbols up to letter case, and are the same string when one checksum constant is accepted |
| Addresses.InputLanguagesDisjoint | internal/address/address.go:180-205 | no string accepted as bech32 is decodable as hex |
| Addresses.HexInput | internal/address/address.go:180-205 | a hex spelling of a canonical address decodes to it exactly when it is not also valid bech32; otherwise it is refused |
| AddressText.AcceptedTexts | internal/address/address.go:180-205 | a text decodes to an address exactly when it reads as bech32 under "addr", "addr_test", "stake" or "stake_test" as the header byte asks, or is its hex and no bech32 |
| AddressText.RawErrors | internal/address/address.go:220-280 | which error a raw address gets, from its header nibble and its length |
| AddressText.RawFields | internal/address/address.go:220-328 | every field read from a raw address: header halves, windows and script flags by type |
| AddressText.TextErrors | internal/address/address.go:180-205 | which error a text gets: empty, payload before prefix, unknown prefix, network before class, neither encoding |
| KnownAddress.AddressDecodes | internal/address/address_test.go:32 | the CIP-19 enterprise address decodes to its 29 bytes, mainnet, type 6, payment key |
| RefusedHex.CanonicalAddressRefused | internal/address/address.go:180-205 | a concrete canonical mainnet address whose lower-case hex is refused by every codec that accepts BIP-173 |
| Message.DecodeHexDigest | message.go:41-58 | the guard accepts exactly the non-empty messages hex decoding accepts, so its last error return is never taken |
| Message.HexMessageIsItsDigest | message.go:19-27 | exactly the hex spellings of d stand for the digest d, and digest returns d for them |
| Message.PrecomputedDigest | message.go:10-27 | for a non-hex message, giving its hash in hex yields the same payload as giving the message |
| Message.DigestStandsFor | message.go:10-27 | the digest is the message itself; when hashed, the bytes a non-empty hex message spells, and the hash of any other |
| Matching.MatchAddress | address.go:187-216 | the check reported is the one the header bits and hash windows call for |
| Matching.MatchPolicy | address.go:178-216 | matches are exactly matches of a key-hash credential; strict never adds one, never changes how it matched, and drops only stake matches of base addresses |
| Matching.ScriptsNeverMatch | address.go:181-183 | a hash held only as a script hash is never matched |
| Matching.NetworkDoesNotMatter | address.go:163-175 | changing the network nibble changes the reported network and nothing else |
| Outcomes.CheckInNumbers | address.go:163-216 | every field of a check from the header nibbles, the hash windows and the call |
| Cip30.VerifyConfig.Apply | cip30.go:116-173 | what each option's closure sets, and that it leaves the rest alone |
| Cip30.ApplyOptions | cip30.go:180-189 | the fold is the last message, the last address and two presence tests, or the conflict error |
| Cip30.ConflictExactly | cip30.go:175-189 | the error is reported exactly when both address options occur somewhere |
| Cip30.LastMessageWins | cip30.go:105-121 | the last WithMessage is the one that counts |
| Cip30.LastAddressWins | cip30.go:105-137 | the last WithAddress is the one that counts |
| Cip30.SwitchesExactly | cip30.go:105-173 | each of the four switches is on exactly when an option that sets it occurs |
| Cip30.Signature.MatchesAddress | cip30.go:290-304 | option error first, then decode error, then the check of the decoded address with the supplied source |
| Cip30.Signature.MatchEmbeddedAddress | cip30.go:315-326 | missing, undecodable or checked embedded address, with the embedded source |
| Cip30.Signature.CheckAddress | cip30.go:386-397 | the embedded check when asked for, else the supplied one |
| Cip30.Verify | cip30.go:335-369 | the result object or error is that of the specification function |
| Cip30.VerifyResult.Valid | cip30.go:403-414 | the signature verified and every check that ran matched |
| Verdict.ParsedLengths | cip30.go:241-244 | the length guards never fire on a parsed signature |
| Verdict.ParseWritten | cip30.go:197-224 | hex of any wire form and key, in any letter case, parses to what they carry |
| Verdict.ParseReads | cip30.go:197-224 | nothing else parses |
| Verdict.ValidExactly | cip30.go:335-414 | Verify is valid exactly when options do not conflict, Ed25519 holds over the Sig_structure of the received header and the covered payload, an embedded payload equals the message's digest, and the key's hash is a key hash of the wanted address under the policy |
| Outcomes.OutcomeExactly | cip30.go:335-397 | every field of every result, valid or not, in numbers: signature verdict, message verdict and flag, address report, key and hash |
| Outcomes.ValidInNumbers | cip30.go:335-414 | Verify is valid exactly when, in numbers, the signature is over the message itself (or its hex bytes or hash), an embedded payload is that, and the address holds the key's hash |
| Outcomes.SignatureStep | cip30.go:236-251 | the signature step for any fields: lengths 32 and 64, and Ed25519 over the bytes spelled out |
| Outcomes.MessageVerdict | cip30.go:267-281 | the message step for any fields: an embedded payload is what the message stands for, or Ed25519 holds over that |
| Outcomes.EmbeddedVerdictIgnoresSignature | cip30.go:277-281 | for an embedded payload the message verdict is the same whatever Ed25519 says |
| Outcomes.MessageStepOfWire | cip30.go:335-379 | for whatever signature and key were written, the message and signature verdicts separately, and the hashed flag carried |
| Outcomes.AddressStep | cip30.go:290-304 | MatchesAddress: conflict, decode error, or the report in numbers |
| Outcomes.VerifyErrors | cip30.go:335-397 | which error Verify reports and when: conflict, parsing, missing embedded address, address decoding |
| Outcomes.ParseErrors | cip30.go:197-224 | which error parsing reports and when: signature hex, key hex, signature, key |
| Verdict.DetachedVerdictsAgree | cip30.go:267-281 | for a detached signature, message check and signature check agree in every run |
| Verdict.HonestSignatureAccepted | cip30.go:335-397 | under any options without conflict, a signature over the bytes asked for, by a key that controls the address asked for if any, is accepted, with any widths and entry order, embedded or detached |
| Verdict.NullPayloadIsEmpty | cip30.go:267-281 | a null payload and an empty one give the same outcome under every option list |
| Verdict.OneMessagePerSignature | cip30.go:277-281 | two valid verdicts on one embedded signature are for equal digests, and without the hashed flag for the same message |
| Verdict.DetachedMessagesSignDifferentBytes | cip30.go:268-276 | for a detached signature, messages reconstruct the same signed bytes exactly when their digests agree; unhashed, different messages never do |
| Verdict.SignedBytesLayout | cip30.go:241-251 | the bytes checked for a parsed signature, in numbers: three byte strings after "Signature1", never a null, 40 for an empty payload |
| Verdict.OneShotIsStepwise | cip30.go:335-397 | Verify reports the first failure of options, parsing and address decoding, and otherwise the results of Parse, Verify, VerifyMessage, MatchesAddress and KeyHash |
| OptionOrder.ReordersExactly | cip30.go:105-189 | swapping neighbours of different kinds reaches exactly the lists with the same options of each kind in the same order |
| Verdict.OptionOrderIsIrrelevant | cip30.go:105-189 | no number of swaps of neighbours of different kinds changes the configuration, the option error or the outcome of Verify |
| Verdict.StrictOnlyRefuses | cip30.go:162-173 | whatever is valid with StrictAddress added is valid without it |
| Verdict.StrictRefusesExactly | cip30.go:162-173 | a valid result becomes invalid with StrictAddress added exactly when its address matched by stake on a base address; Verify still reports a result |
| Signer.DecodeUndoesEncode | internal/cose/cose.go:149-201 | for every address, hashed flag, payload or null, and 64-byte signature, decoding the wallet's encoding returns those fields, the protected bytes verbatim |
| Signer.DecodeUndoesKey | internal/cose/cose.go:253-271 | every 32-byte key, encoded as {1: 1, 3: -8, -1: 6, -2: x}, decodes to itself |
| Signer.SignerBytes | internal/cose/cose.go:149-201 | a wallet's COSE_Sign1 byte for byte, 84 to 58 40 and the signature, and the fields decoded from those bytes |
| Signer.SignerKeyBytes | internal/cose/cose.go:253-271 | a wallet's COSE_Key byte for byte, a4 to 58 20 and x, and x decoded from those bytes |
| Signer.WalletVerdict | cip30.go:335-414 | under any options that ask for its message and, if any, its own address in whatever spelling, a wallet's signature is valid exactly when Ed25519 holds over its protected header and the message's digest and the key controls the address |
| Signer.LoginVerdict | cip30.go:335-414 | for every canonical address, given in bech32 or embedded, and a wallet's signature, Valid is Ed25519 together with the key's hash lying in the address bytes where the policy looks, strict or not |
| Signer.LoginInNumbers | cip30.go:197-414 | from a wallet's bytes in hex of any case to Valid, for any options that ask for a message: Ed25519 over the message's bytes and the key's hash in the address, all in numbers |

## Left out

- CBOR tags, indefinite lengths, floats, bignums, undefined and other simple values: the reader refuses them; the decoding library accepts some of them.
- Limits of the CBOR library on nesting and element counts, and its check that text is UTF-8: further reasons to refuse an input.
- Coercions of the CBOR library beyond what the source documents, such as an array of small integers read into a byte slice: `Cose.DecodeBytesExact` follows the documented byte string or null.
- Map keys of an accepted header are taken to be anything but arrays, maps and integers below the int64 range, and COSE_Key labels to be integers or text (RFC 8152, sections 3 and 7).
- Which checksum constants the bech32 library accepts: a parameter, see above.
- Ed25519 and blake2b themselves, and constant-time behaviour.
- Error texts and wrapping chains: errors are a datatype of kinds with their cause.
- The `String()` methods and the aliasing of raw byte slices between an address and its credentials: byte strings are values here.
- Replay, freshness and everything the calling application does with a verdict.
