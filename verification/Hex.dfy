/** Hexadecimal text as Node's `Buffer` writes and reads it. */
module Hex {
  import opened Numerals
  import opened Text

  function HexChar(d: nat): char
    requires d < 16
  {
    if d < 10 then (48 + d) as char else (87 + d) as char
  }

  /** The value of a hexadecimal character in either case, -1 for any other character. */
  function Nibble(c: char): (d: int)
    ensures -1 <= d < 16
  {
    if '0' <= c <= '9' then c as int - 48
    else if 'a' <= c <= 'f' then c as int - 87
    else if 'A' <= c <= 'F' then c as int - 55
    else -1
  }

  /** `toString("hex")`: two lower-case characters a byte. */
  function HexOf(bytes: seq<Byte>): (text: string)
    ensures |text| == 2 * |bytes|
  {
    if bytes == [] then "" else [HexChar(bytes[0] / 16), HexChar(bytes[0] % 16)] + HexOf(bytes[1..])
  }

  predicate StartsWithByte(text: string) {
    |text| >= 2 && Nibble(text[0]) >= 0 && Nibble(text[1]) >= 0
  }

  /** `Buffer.from(text, "hex")`: it stops, without an error, before the first pair that is not a byte. */
  function Unhex(text: string): (bytes: seq<Byte>)
    ensures 2 * |bytes| <= |text|
  {
    if StartsWithByte(text) then
      [Nibble(text[0]) * 16 + Nibble(text[1])] + Unhex(text[2..])
    else []
  }

  lemma {:induction false} UnhexOfHex(bytes: seq<Byte>)
    ensures Unhex(HexOf(bytes)) == bytes
  {
    if bytes != [] {
      var b := bytes[0];
      var text := HexOf(bytes);
      assert text[2..] == HexOf(bytes[1..]);
      assert Nibble(HexChar(b / 16)) == b / 16 && Nibble(HexChar(b % 16)) == b % 16;
      UnhexOfHex(bytes[1..]);
    }
  }

  lemma LowerAppend(s: string, t: string)
    ensures Lower(s + t) == Lower(s) + Lower(t)
  {
  }

  /** What was read, written again, is what was read of the text in lower case; the rest was not bytes. */
  lemma {:induction false} HexOfUnhex(text: string)
    ensures HexOf(Unhex(text)) == Lower(text[..2 * |Unhex(text)|])
    ensures !StartsWithByte(text[2 * |Unhex(text)|..])
  {
    if StartsWithByte(text) {
      var rest := text[2..];
      HexOfUnhex(rest);
      var n := 2 * |Unhex(rest)|;
      assert text[..n + 2] == text[..2] + rest[..n];
      assert text[n + 2..] == rest[n..];
      LowerAppend(text[..2], rest[..n]);
      NibbleBack(text[0]);
      NibbleBack(text[1]);
      PairBack(Nibble(text[0]), Nibble(text[1]));
      assert Unhex(text)[1..] == Unhex(rest);
      assert Lower(text[..2]) == [LowerChar(text[0]), LowerChar(text[1])];
    } else {
      assert text[0..] == text;
    }
  }

  lemma NibbleBack(c: char)
    requires Nibble(c) >= 0
    ensures HexChar(Nibble(c)) == LowerChar(c)
  {
  }

  lemma PairBack(high: nat, low: nat)
    requires high < 16 && low < 16
    ensures (high * 16 + low) / 16 == high && (high * 16 + low) % 16 == low
  {
  }

  /** The characters written: 0 to 9 and a to f, sixteen times the first plus the second for each byte. */
  lemma {:induction false} HexAt(bytes: seq<Byte>, i: nat)
    requires i < |bytes|
    ensures HexOf(bytes)[2 * i] == ("01234567" + "89abcdef")[bytes[i] / 16]
    ensures HexOf(bytes)[2 * i + 1] == ("01234567" + "89abcdef")[bytes[i] % 16]
  {
    if i == 0 {
      HexCharIs(bytes[0] / 16);
      HexCharIs(bytes[0] % 16);
    } else {
      HexAt(bytes[1..], i - 1);
    }
  }

  lemma HexCharIs(d: nat)
    requires d < 16
    ensures HexChar(d) == ("01234567" + "89abcdef")[d]
  {
    assert d < 8 ==> ("01234567" + "89abcdef")[d] == "01234567"[d];
    assert d >= 8 ==> ("01234567" + "89abcdef")[d] == "89abcdef"[d - 8];
  }

  /** A character is read as a digit in either case, and no other is. */
  lemma NibbleIff(c: char)
    ensures Nibble(c) >= 0 <==> '0' <= c <= '9' || 'a' <= c <= 'f' || 'A' <= c <= 'F'
    ensures Nibble(c) >= 0 ==> LowerChar(c) == ("01234567" + "89abcdef")[Nibble(c)]
  {
    if Nibble(c) >= 0 {
      HexCharIs(Nibble(c));
      NibbleBack(c);
    }
  }
}
