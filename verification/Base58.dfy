/** Base58 and base58check, agents/utxo/src/chains/base58.ts. */
module Base58 {
  import opened Numerals
  import opened Wrappers

  /** The Bitcoin alphabet, in its six runs of consecutive characters: no 0, I, O or l. */
  const ALPHABET: string :=
    "123456789" + "ABCDEFGH" + "JKLMN" + "PQRSTUVWXYZ" + "abcdefghijk" + "mnopqrstuvwxyz"

  /** `ALPHABET.indexOf`: where a letter first stands from `at` on, or -1. */
  function IndexOf(c: char, at: nat := 0): (i: int)
    requires at <= |ALPHABET|
    ensures i == -1 || (at <= i < |ALPHABET| && ALPHABET[i] == c)
    ensures i == -1 ==> c !in ALPHABET[at..]
    decreases |ALPHABET| - at
  {
    if at == |ALPHABET| then -1 else if ALPHABET[at] == c then at else IndexOf(c, at + 1)
  }

  /** The alphabet is in character order, so no letter occurs twice. */
  lemma AlphabetAscends(i: nat, j: nat)
    requires i < j < |ALPHABET|
    ensures ALPHABET[i] < ALPHABET[j]
  {
    LetterAt(i);
    LetterAt(j);
  }

  lemma LetterAt(i: nat)
    requires i < |ALPHABET|
    ensures ALPHABET[i] as int ==
      if i < 9 then 49 + i
      else if i < 17 then 65 + (i - 9)
      else if i < 22 then 74 + (i - 17)
      else if i < 33 then 80 + (i - 22)
      else if i < 44 then 97 + (i - 33)
      else 109 + (i - 44)
  {
    if i < 9 {
      assert ALPHABET[i] == "123456789"[i];
    } else if i < 17 {
      assert ALPHABET[i] == "ABCDEFGH"[i - 9];
    } else if i < 22 {
      assert ALPHABET[i] == "JKLMN"[i - 17];
    } else if i < 33 {
      assert ALPHABET[i] == "PQRSTUVWXYZ"[i - 22];
    } else if i < 44 {
      assert ALPHABET[i] == "abcdefghijk"[i - 33];
    } else {
      assert ALPHABET[i] == "mnopqrstuvwxyz"[i - 44];
    }
  }

  lemma IndexOfLetter(i: nat)
    requires i < |ALPHABET|
    ensures IndexOf(ALPHABET[i]) == i
  {
    var j := IndexOf(ALPHABET[i]);
    assert ALPHABET[i] in ALPHABET[0..];
    if j < i {
      AlphabetAscends(j, i);
    } else if i < j {
      AlphabetAscends(i, j);
    }
  }

  // ---- Text and its digits ----

  function Letters(ds: seq<nat>): (text: string)
    requires ValidDigits(ds, 58)
    ensures |text| == |ds|
  {
    seq(|ds|, i requires 0 <= i < |ds| => ALPHABET[ds[i]])
  }

  predicate InAlphabet(text: string) {
    forall i | 0 <= i < |text| :: IndexOf(text[i]) >= 0
  }

  function DigitsOf(text: string): (ds: seq<nat>)
    requires InAlphabet(text)
    ensures |ds| == |text| && ValidDigits(ds, 58)
  {
    seq(|text|, i requires 0 <= i < |text| => IndexOf(text[i]))
  }

  lemma DigitsOfLetters(ds: seq<nat>)
    requires ValidDigits(ds, 58)
    ensures InAlphabet(Letters(ds)) && DigitsOf(Letters(ds)) == ds
  {
    forall i | 0 <= i < |ds| ensures IndexOf(Letters(ds)[i]) == ds[i] {
      IndexOfLetter(ds[i]);
    }
  }

  lemma LettersOfDigits(text: string)
    requires InAlphabet(text)
    ensures Letters(DigitsOf(text)) == text
  {
  }

  // ---- The coding ----

  /** A numeral rewritten in another base, each leading zero kept as one leading zero. */
  function Rebased(ds: seq<nat>, from: nat, to: nat): (out: seq<nat>)
    requires to >= 2
    ensures ValidDigits(out, to)
  {
    Zeros(LeadingZeros(ds)) + Digits(Value(ds, from), to)
  }

  /** Rewriting there and back is the identity, whatever the bases and however many leading zeros. */
  lemma RebasedBack(ds: seq<nat>, from: nat, to: nat)
    requires from >= 2 && to >= 2 && ValidDigits(ds, from)
    ensures Rebased(Rebased(ds, from, to), to, from) == ds
  {
    var z, n := LeadingZeros(ds), Value(ds, from);
    DigitsHaveNoLeadingZero(n, to);
    LeadingZerosOfPadded(z, Digits(n, to));
    ValueOfPadded(z, Digits(n, to), to);
    ValueOfDigits(n, to);
    DigitsOfValue(ds, from);
    assert Zeros(z) == ds[..z];
  }

  /** The base58 text of a byte string. */
  function Encoded(bytes: seq<Byte>): string {
    Letters(Rebased(bytes, 256, 58))
  }

  /** The bytes of a base58 text; nothing when a character is outside the alphabet. */
  function Decoded(text: string): Option<seq<Byte>> {
    if InAlphabet(text) then
      var bytes: seq<Byte> := Rebased(DigitsOf(text), 58, 256);
      Some(bytes)
    else None
  }

  /** Every byte string comes back from its text: the empty one and all-zero ones included. */
  lemma DecodedEncoded(bytes: seq<Byte>)
    ensures Decoded(Encoded(bytes)) == Some(bytes)
  {
    RebasedBack(bytes, 256, 58);
    DigitsOfLetters(Rebased(bytes, 256, 58));
  }

  /** Every text over the alphabet comes back from its bytes, so no two texts share them. */
  lemma EncodedDecoded(text: string)
    requires InAlphabet(text)
    ensures Encoded(Decoded(text).value) == text
  {
    RebasedBack(DigitsOf(text), 58, 256);
    LettersOfDigits(text);
  }

  /** One round of a conversion loop: the last digit moves from the number to the front of the tail. */
  lemma DigitMoved(n: nat, tail: seq<nat>, b: nat)
    requires n > 0 && b >= 2
    ensures n / b < n && n % b < b
    ensures Digits(n, b) + tail == Digits(n / b, b) + ([n % b] + tail)
  {
    QuotientSmaller(n, b);
  }

  /** One more letter read: the text so far stays over the alphabet or the whole text is not. */
  lemma LetterRead(text: string, k: nat)
    requires k < |text| && InAlphabet(text[..k])
    ensures IndexOf(text[k]) < 0 ==> !InAlphabet(text)
    ensures IndexOf(text[k]) >= 0 ==> InAlphabet(text[..k + 1])
  {
    var more, c := text[..k + 1], text[k];
    forall j | 0 <= j < |more| ensures more[j] == c || IndexOf(more[j]) >= 0 {
      assert j < k ==> more[j] == text[..k][j];
    }
  }

  lemma LetterAdded(text: string, k: nat)
    requires k < |text| && InAlphabet(text[..k]) && InAlphabet(text[..k + 1])
    ensures Value(DigitsOf(text[..k + 1]), 58) == Value(DigitsOf(text[..k]), 58) * 58 + IndexOf(text[k])
  {
    var ds, more := DigitsOf(text[..k]), DigitsOf(text[..k + 1]);
    assert more == ds + [more[k]];
    ValueSnoc(ds, more[k], 58);
  }

  lemma LetterPut(d: nat, ds: seq<nat>)
    requires d < 58 && ValidDigits(ds, 58)
    ensures ValidDigits([d] + ds, 58) && Letters([d] + ds) == [ALPHABET[d]] + Letters(ds)
  {
  }

  lemma ZeroPut(z: nat, ds: seq<nat>)
    ensures [0] + (Zeros(z) + ds) == Zeros(z + 1) + ds
  {
    assert Zeros(z + 1) == [0] + Zeros(z);
  }

  lemma OneIsZero()
    ensures ALPHABET[0] == '1' && IndexOf('1') == 0
  {
    LetterAt(0);
    IndexOfLetter(0);
  }

  /** `decodeBase58`; `None` is the throw on a character outside the alphabet. */
  method DecodeBase58(text: string) returns (r: Option<seq<Byte>>)
    ensures r == Decoded(text)
  {
    var n: nat := 0;
    for k := 0 to |text|
      invariant InAlphabet(text[..k]) && n == Value(DigitsOf(text[..k]), 58)
    {
      LetterRead(text, k);
      var i := IndexOf(text[k]);
      if i < 0 {
        return None;
      }
      LetterAdded(text, k);
      n := n * 58 + i;
    }
    assert text[..|text|] == text;
    ghost var whole := n;
    var bytes: seq<Byte> := [];
    while n > 0
      invariant Digits(n, 256) + bytes == Digits(whole, 256)
      decreases n
    {
      DigitMoved(n, bytes, 256);
      bytes := [n % 256] + bytes;
      n := n / 256;
    }
    var k := 0;
    ghost var ds := DigitsOf(text);
    OneIsZero();
    while k < |text| && text[k] == '1'
      invariant k <= |text|
      invariant forall i | 0 <= i < k :: ds[i] == 0
      invariant bytes == Zeros(k) + Digits(whole, 256)
    {
      ZeroPut(k, Digits(whole, 256));
      bytes := [0] + bytes;
      k := k + 1;
    }
    ZerosUnique(ds, k);
    return Some(bytes);
  }

  /** `encodeBase58`. The hexadecimal text of the bytes, read as one number, is their value in base 256. */
  method EncodeBase58(bytes: seq<Byte>) returns (out: string)
    ensures out == Encoded(bytes)
  {
    out := "";
    var n := Value(bytes, 256);
    ghost var whole := n;
    ghost var ds: seq<nat> := [];
    while n > 0
      invariant Digits(n, 58) + ds == Digits(whole, 58)
      invariant ValidDigits(ds, 58) && out == Letters(ds)
      decreases n
    {
      DigitMoved(n, ds, 58);
      LetterPut(n % 58, ds);
      out := [ALPHABET[n % 58]] + out;
      ds := [n % 58] + ds;
      n := n / 58;
    }
    var k := 0;
    OneIsZero();
    while k < |bytes| && bytes[k] == 0
      invariant k <= |bytes|
      invariant forall i | 0 <= i < k :: bytes[i] == 0
      invariant ValidDigits(ds, 58) && out == Letters(ds)
      invariant ds == Zeros(k) + Digits(whole, 58)
    {
      ZeroPut(k, Digits(whole, 58));
      LetterPut(0, ds);
      out := "1" + out;
      ds := [0] + ds;
      k := k + 1;
    }
    ZerosUnique(bytes, k);
  }

  // ---- base58check ----

  /** The checksum: four bytes, the first of a double SHA-256 in the program, any function here. */
  type Four = s: seq<Byte> | |s| == 4 witness [0, 0, 0, 0]

  /** `encodeBase58Check`. */
  function EncodedCheck(body: seq<Byte>, checksum: seq<Byte> -> Four): string {
    Encoded(body + checksum(body))
  }

  /** `decodeBase58Check`; `None` is its `null`. */
  function DecodedCheck(text: string, checksum: seq<Byte> -> Four): Option<seq<Byte>> {
    match Decoded(text)
    case None => None
    case Some(raw) =>
      if |raw| < 5 then None
      else
        var body := raw[..|raw| - 4];
        if checksum(body) == raw[|raw| - 4..] then Some(body) else None
  }

  /**
   * A text decodes to a body exactly when it is that body's encoding and the body is not empty: one
   * text for each body, one body for each text, whatever the checksum.
   */
  lemma DecodedCheckIff(text: string, body: seq<Byte>, checksum: seq<Byte> -> Four)
    ensures DecodedCheck(text, checksum) == Some(body) <==> body != [] && text == EncodedCheck(body, checksum)
  {
    var all := body + checksum(body);
    DecodedEncoded(all);
    assert all[..|all| - 4] == body && all[|all| - 4..] == checksum(body);
    if DecodedCheck(text, checksum) == Some(body) {
      EncodedDecoded(text);
      var raw := Decoded(text).value;
      assert raw == raw[..|raw| - 4] + raw[|raw| - 4..];
    }
  }

  /** The one body that does not come back: the empty one encodes, and its text is refused. */
  lemma EmptyBodyRefused(checksum: seq<Byte> -> Four)
    ensures DecodedCheck(EncodedCheck([], checksum), checksum) == None
  {
    assert [] + checksum([]) == checksum([]);
    DecodedEncoded(checksum([]));
  }

  // ---- In terms of letters and numbers ----

  /** The alphabet is the digits and letters but 0, I, O and l. */
  lemma AlphabetIs(c: char)
    ensures c in ALPHABET <==>
      || '1' <= c <= '9'
      || ('A' <= c <= 'Z' && c != 'I' && c != 'O')
      || ('a' <= c <= 'z' && c != 'l')
  {
    if c in ALPHABET {
      var i :| 0 <= i < |ALPHABET| && ALPHABET[i] == c;
      LetterAt(i);
    } else {
      var n := c as int;
      var at := if n < 65 then n - 49 else if n < 73 then n - 65 + 9 else if n < 79 then n - 74 + 17
                else if n < 97 then n - 80 + 22 else if n < 108 then n - 97 + 33 else n - 109 + 44;
      if 0 <= at < |ALPHABET| {
        LetterAt(at);
      }
    }
  }

  /**
   * The text of some bytes is a number in base 58 with the value the bytes have in base 256, after one "1"
   * for each zero byte they start with.
   */
  lemma EncodedValue(bytes: seq<Byte>)
    ensures InAlphabet(Encoded(bytes)) && Value(DigitsOf(Encoded(bytes)), 58) == Value(bytes, 256)
    ensures LeadingZeros(DigitsOf(Encoded(bytes))) == LeadingZeros(bytes)
  {
    var z, n := LeadingZeros(bytes), Value(bytes, 256);
    DigitsOfLetters(Rebased(bytes, 256, 58));
    DigitsHaveNoLeadingZero(n, 58);
    LeadingZerosOfPadded(z, Digits(n, 58));
    ValueOfPadded(z, Digits(n, 58), 58);
    ValueOfDigits(n, 58);
  }

  /** The base58check text is that of the body with its checksum behind it. */
  lemma CheckedText(body: seq<Byte>, checksum: seq<Byte> -> Four)
    ensures Decoded(EncodedCheck(body, checksum)) == Some(body + checksum(body))
  {
    DecodedEncoded(body + checksum(body));
  }
}
