/**
 * Transparent Zcash addresses, agents/utxo/src/chains/zcash.ts (section 5.6.1.1 of the Zcash protocol
 * specification).
 */
module Zcash {
  import opened Base58
  import opened Hex
  import opened Numerals
  import opened Text
  import opened Wrappers

  const VERSIONS: seq<string> := ["1cb8", "1cbd"]

  /** A body the emitter takes: 22 bytes that start with a mainnet transparent version. */
  predicate Accepted(body: seq<Byte>) {
    |body| == 22 && HexOf(body[..2]) in VERSIONS
  }

  /** `encode`; `None` is its `null`. */
  function Encode(address: string, checksum: seq<Byte> -> Four): Option<string> {
    match DecodedCheck(address, checksum)
    case None => None
    case Some(body) => if Accepted(body) then Some("0x" + HexOf(body)) else None
  }

  /** `Buffer.from(bytes.slice(2), "hex")`: the first two characters are dropped unread. */
  function BodyOf(bytes: string): seq<Byte> {
    if |bytes| < 2 then [] else Unhex(bytes[2..])
  }

  /** `decode`; `None` is the throw. */
  function Decode(bytes: string, checksum: seq<Byte> -> Four): Option<string> {
    var body := BodyOf(bytes);
    if Accepted(body) then Some(EncodedCheck(body, checksum)) else None
  }

  /** The one spelling `encode` writes: 0x and 44 lower-case hexadecimal characters. */
  predicate Canonical(bytes: string) {
    |bytes| == 46 && bytes[..2] == "0x" && Lower(bytes) == bytes
  }

  lemma LowerSuffix(s: string)
    requires |s| >= 2
    ensures Lower(s)[2..] == Lower(s[2..])
  {
  }

  lemma LowerOfHex(bytes: seq<Byte>)
    ensures Lower(HexOf(bytes)) == HexOf(bytes)
  {
    UnhexOfHex(bytes);
    HexOfUnhex(HexOf(bytes));
    assert HexOf(bytes)[..2 * |bytes|] == HexOf(bytes);
    LowerIdempotent(HexOf(bytes));
  }

  lemma BodyOfWritten(body: seq<Byte>)
    requires |body| == 22
    ensures BodyOf("0x" + HexOf(body)) == body && Canonical("0x" + HexOf(body))
  {
    var text := "0x" + HexOf(body);
    assert text[2..] == HexOf(body);
    UnhexOfHex(body);
    LowerOfHex(body);
    LowerAppend("0x", HexOf(body));
  }

  lemma WrittenBodyOf(bytes: string)
    requires Canonical(bytes) && |BodyOf(bytes)| == 22
    ensures "0x" + HexOf(BodyOf(bytes)) == bytes
  {
    HexOfUnhex(bytes[2..]);
    LowerSuffix(bytes);
    assert bytes[2..][..44] == bytes[2..];
    assert bytes == bytes[..2] + bytes[2..];
  }

  /**
   * `encode` and `decode` undo each other: an address is written as `bytes` exactly when `bytes` is in
   * the canonical spelling and reads back as that address.
   */
  lemma EncodeIffDecode(address: string, bytes: string, checksum: seq<Byte> -> Four)
    ensures Encode(address, checksum) == Some(bytes) <==>
      Canonical(bytes) && Decode(bytes, checksum) == Some(address)
  {
    var body := BodyOf(bytes);
    if Encode(address, checksum) == Some(bytes) {
      var own := DecodedCheck(address, checksum).value;
      DecodedCheckIff(address, own, checksum);
      BodyOfWritten(own);
    }
    if Canonical(bytes) && Decode(bytes, checksum) == Some(address) {
      DecodedCheckIff(address, body, checksum);
      WrittenBodyOf(bytes);
    }
  }

  /** Any spelling that decodes reads as an address whose own spelling carries the same body. */
  lemma DecodeThenEncode(bytes: string, checksum: seq<Byte> -> Four)
    requires Decode(bytes, checksum).Some?
    ensures Encode(Decode(bytes, checksum).value, checksum) == Some("0x" + HexOf(BodyOf(bytes)))
  {
    DecodedCheckIff(EncodedCheck(BodyOf(bytes), checksum), BodyOf(bytes), checksum);
  }

  /** Distinct bodies have distinct addresses. */
  lemma AddressTellsBody(one: string, two: string, checksum: seq<Byte> -> Four)
    requires Decode(one, checksum).Some? && Decode(one, checksum) == Decode(two, checksum)
    ensures BodyOf(one) == BodyOf(two)
  {
    var address := Decode(one, checksum).value;
    DecodedCheckIff(address, BodyOf(one), checksum);
    DecodedCheckIff(address, BodyOf(two), checksum);
  }

  /** The versions are the bytes the specification gives: 1C B8 (P2PKH) and 1C BD (P2SH). */
  lemma VersionBytes(body: seq<Byte>)
    ensures Accepted(body) <==> |body| == 22 && body[0] == 0x1C && body[1] in {0xB8, 0xBD}
  {
    if |body| == 22 {
      UnhexOfHex(body[..2]);
      UnhexOfHex([0x1C, 0xB8]);
      UnhexOfHex([0x1C, 0xBD]);
      HexOfPair(body[0], body[1]);
      assert body[..2] == [body[0], body[1]];
    }
  }

  lemma HexOfPair(a: Byte, b: Byte)
    ensures HexOf([a, b]) == [HexChar(a / 16), HexChar(a % 16), HexChar(b / 16), HexChar(b % 16)]
  {
    assert [a, b][1..] == [b];
    assert [b][1..] == [];
  }

  /** `decode` drops two characters unread: any two in front of the same text read as the same. */
  lemma PrefixUnread(prefix: string, text: string, checksum: seq<Byte> -> Four)
    requires |prefix| == 2
    ensures Decode(prefix + text, checksum) == Decode("0x" + text, checksum)
  {
    assert (prefix + text)[2..] == text == ("0x" + text)[2..];
  }

  /** What an accepted body's address is: the base58 text of the body and its checksum. */
  lemma AddressIs(bytes: string, checksum: seq<Byte> -> Four)
    requires Decode(bytes, checksum).Some?
    ensures var body := BodyOf(bytes);
      && |body| == 22 && body[0] == 0x1C && body[1] in {0xB8, 0xBD}
      && Base58.Decoded(Decode(bytes, checksum).value) == Some(body + checksum(body))
  {
    var body := BodyOf(bytes);
    VersionBytes(body);
    DecodedEncoded(body + checksum(body));
  }
}
