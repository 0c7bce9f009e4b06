/** The payload an expected message stands for (package cip30, message.go). */
module Message {
  import opened Bytes
  import Bech32
  import Hex

  /**
   * What the package calls: blake2b-224, Ed25519 verification of a public key, a message and a
   * signature, and the constants its bech32 codec lets a checksum come to.
   */
  datatype Library = Library(hash224: bytes -> bytes, ed25519: (bytes, bytes, bytes) -> bool,
                             checksums: set<Bech32.state>)

  const KEY_HASH_SIZE := 28

  ghost predicate HashLengths(lib: Library) {
    forall data :: |lib.hash224(data)| == KEY_HASH_SIZE
  }

  /** Non-empty, of even length and all hex digits. */
  predicate IsHex(message: bytes) {
    |message| > 0 && |message| % 2 == 0 && forall i :: 0 <= i < |message| ==> Hex.IsDigit(message[i])
  }

  /** The digest a message spells out in hex, if it does. */
  function HexDigest(message: bytes): Option<bytes> {
    if IsHex(message) then Hex.Decode(message) else None
  }

  /**
   * The is-hex guard: it accepts exactly the messages hex decoding accepts, the empty one apart,
   * so the error branch after the loop is never taken.
   */
  method DecodeHexDigest(message: bytes) returns (decoded: bytes, ok: bool)
    ensures ok <==> message != [] && Hex.Decode(message).Some?
    ensures ok ==> Hex.Decode(message) == Some(decoded)
    ensures !ok ==> decoded == []
    ensures HexDigest(message) == if ok then Some(decoded) else None
  {
    Hex.DecodeDefined(message);
    if |message| == 0 || |message| % 2 != 0 {
      return [], false;
    }
    for i := 0 to |message|
      invariant forall j :: 0 <= j < i ==> Hex.IsDigit(message[j])
    {
      var b := message[i];
      var isDigit := '0' as int <= b <= '9' as int;
      var isLower := 'a' as int <= b <= 'f' as int;
      var isUpper := 'A' as int <= b <= 'F' as int;
      if !isDigit && !isLower && !isUpper {
        return [], false;
      }
    }
    var result := Hex.Decode(message);
    match result
    case None => return [], false;
    case Some(d) => return d, true;
  }

  /** The payload bytes expected for a message under the "hashed" convention. */
  function Digest(lib: Library, message: bytes, hashed: bool): bytes {
    if !hashed then message else
    match HexDigest(message)
    case Some(decoded) => decoded
    case None => lib.hash224(message)
  }

  /**
   * What a message stands for, in numbers: itself; under the hashed convention the bytes it spells
   * in hex, if it is non-empty hex, and its hash if it is not.
   */
  ghost predicate StandsFor(lib: Library, message: bytes, hashed: bool, y: bytes) {
    if !hashed then y == message
    else if message != [] && exists d :: Hex.SpelledInHex(message, d) then Hex.SpelledInHex(message, y)
    else y == lib.hash224(message)
  }

  /** A message stands for exactly one byte string, its digest. */
  lemma DigestStandsFor(lib: Library, message: bytes, hashed: bool, y: bytes)
    ensures Digest(lib, message, hashed) == y <==> StandsFor(lib, message, hashed, y)
  {
    Hex.DecodeDefined(message);
    Hex.DecodeInNumbers(message, y);
    if Hex.Decode(message).Some? {
      Hex.DecodeInNumbers(message, Hex.Decode(message).value);
    }
    if d :| Hex.SpelledInHex(message, d) {
      Hex.DecodeInNumbers(message, d);
    }
  }

  /** Every spelling of a non-empty byte string in hex stands for that byte string. */
  lemma HexMessageIsItsDigest(lib: Library, message: bytes, d: bytes)
    requires d != []
    ensures HexDigest(message) == Some(d) <==> Lower(message) == Hex.Encode(d)
    ensures Lower(message) == Hex.Encode(d) ==> Digest(lib, message, true) == d
  {
    Hex.DecodeIsAnySpelling(message, d);
    Hex.DecodeDefined(message);
    assert |message| == |Lower(message)|;
  }

  /** Giving the digest of a message in hex is as good as giving the message. */
  lemma PrecomputedDigest(lib: Library, message: bytes)
    requires HashLengths(lib) && !IsHex(message)
    ensures Digest(lib, Hex.Encode(lib.hash224(message)), true) == Digest(lib, message, true)
  {
    var d := lib.hash224(message);
    Hex.EncodeIsLowerDigits(d);
    assert |d| == KEY_HASH_SIZE;
    HexMessageIsItsDigest(lib, Hex.Encode(d), d);
  }
}
