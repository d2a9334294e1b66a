/**
 * Borsh `SignedDelegateAction` with one function call, agents/utxo/src/near/delegate.ts: the layout of
 * NEP-366 ("Specification") over the Borsh specification.
 */
module Delegate {
  import Base58
  import opened Buffers
  import opened Numerals
  import opened Wrappers

  datatype Error =
    | OutOfRange
    | NotOneAction
    | NotAFunctionCall
    | BadKey
    | NotAnEd25519Key
    | NotAnEd25519Signature
    | TrailingBytes
    | DoesNotReencode

  /** A signed delegate; its strings are bytes on the wire and text in the decoded object. */
  datatype Signed<T> = Signed(
    senderId: T, receiverId: T,
    methodName: T, callArgs: seq<Byte>, gas: nat, deposit: nat,
    nonce: nat, maxBlockHeight: nat, publicKey: seq<Byte>, signature: seq<Byte>)

  /** The text codec. Reading never fails: bytes that are not UTF-8 read as some other text. */
  datatype Utf8 = Utf8(read: seq<Byte> -> string, write: string -> seq<Byte>)

  // ---- The encoding ----

  function Counted(bytes: seq<Byte>): seq<Byte> {
    ToLE(|bytes|, 4) + bytes
  }

  function HeadBytes(d: Signed<seq<Byte>>): seq<Byte> {
    Counted(d.senderId) + Counted(d.receiverId) + ToLE(1, 4) + [2]
  }

  function CallBytes(d: Signed<seq<Byte>>): seq<Byte> {
    Counted(d.methodName) + Counted(d.callArgs) + ToLE(d.gas, 8) + ToLE(d.deposit, 16)
  }

  function TailBytes(d: Signed<seq<Byte>>): seq<Byte> {
    ToLE(d.nonce, 8) + ToLE(d.maxBlockHeight, 8) + [0] + d.publicKey + [0] + d.signature
  }

  /** The Borsh bytes of a signed delegate. */
  function Borsh(d: Signed<seq<Byte>>): seq<Byte> {
    HeadBytes(d) + (CallBytes(d) + TailBytes(d))
  }

  /** Every field fits the width the layout gives it. */
  predicate Fits(d: Signed<seq<Byte>>) {
    && |d.senderId| < Width(4) && |d.receiverId| < Width(4)
    && |d.methodName| < Width(4) && |d.callArgs| < Width(4)
    && d.gas < Width(8) && d.deposit < Width(16) && d.nonce < Width(8) && d.maxBlockHeight < Width(8)
    && |d.publicKey| == 32 && |d.signature| == 64
  }

  function Read(d: Signed<seq<Byte>>, utf8: Utf8): Signed<string> {
    Signed(utf8.read(d.senderId), utf8.read(d.receiverId), utf8.read(d.methodName), d.callArgs, d.gas, d.deposit,
      d.nonce, d.maxBlockHeight, d.publicKey, d.signature)
  }

  function Written(d: Signed<string>, utf8: Utf8): Signed<seq<Byte>> {
    Signed(utf8.write(d.senderId), utf8.write(d.receiverId), utf8.write(d.methodName), d.callArgs, d.gas, d.deposit,
      d.nonce, d.maxBlockHeight, d.publicKey, d.signature)
  }

  // ---- The parse ----

  /** A fixed-width read; the throw of `readUInt32LE` or `readBigUInt64LE` on a short slice. */
  function UintAt(bytes: seq<Byte>, at: nat, w: nat): Result<nat, Error> {
    if |Slice(bytes, at, w)| == w then Ok(FromLE(Slice(bytes, at, w))) else Err(OutOfRange)
  }

  /** The high and the low half, read apart. */
  function U128At(bytes: seq<Byte>, at: nat): Result<nat, Error> {
    var high :- UintAt(bytes, at + 8, 8);
    var low :- UintAt(bytes, at, 8);
    Ok(high * 0x1_0000_0000_0000_0000 + low)
  }

  datatype Str = Text(bytes: seq<Byte>, end: nat)

  /** `str()`: a counted string, still bytes, and where the cursor stands after it. */
  function StrAt(bytes: seq<Byte>, at: nat): Result<Str, Error> {
    var n :- UintAt(bytes, at, 4);
    Ok(Text(Slice(bytes, at + 4, n), at + 4 + n))
  }

  datatype Head = Head(senderId: seq<Byte>, receiverId: seq<Byte>, at: nat)

  function HeadOf(bytes: seq<Byte>): Result<Head, Error> {
    var sender :- StrAt(bytes, 0);
    var receiver :- StrAt(bytes, sender.end);
    var at := receiver.end;
    var count :- UintAt(bytes, at, 4);
    if count != 1 then Err(NotOneAction)
    else if Slice(bytes, at + 4, 1) != [2] then Err(NotAFunctionCall)
    else Ok(Head(sender.bytes, receiver.bytes, at + 5))
  }

  datatype Call = Call(methodName: seq<Byte>, callArgs: seq<Byte>, gas: nat, deposit: nat, at: nat)

  function CallAt(bytes: seq<Byte>, start: nat): Result<Call, Error> {
    var name :- StrAt(bytes, start);
    var args :- StrAt(bytes, name.end);
    var at := args.end;
    var gas :- UintAt(bytes, at, 8);
    var deposit :- U128At(bytes, at + 8);
    Ok(Call(name.bytes, args.bytes, gas, deposit, at + 24))
  }

  datatype Tail = Tail(nonce: nat, maxBlockHeight: nat, publicKey: seq<Byte>, signature: seq<Byte>)

  /** `PublicKey.fromString` on the key's base58 text. */
  function KeyOf(raw: seq<Byte>): Result<seq<Byte>, Error> {
    match Base58.Decoded(Base58.Encoded(raw))
    case Some(key) => if |key| == 32 then Ok(key) else Err(BadKey)
    case None => Err(BadKey)
  }

  function TailAt(bytes: seq<Byte>, at: nat): Result<Tail, Error> {
    var nonce :- UintAt(bytes, at, 8);
    var height :- UintAt(bytes, at + 8, 8);
    if Slice(bytes, at + 16, 1) != [0] then Err(NotAnEd25519Key)
    else
      var key :- KeyOf(Slice(bytes, at + 17, 32));
      if Slice(bytes, at + 49, 1) != [0] then Err(NotAnEd25519Signature)
      else if at + 114 != |bytes| then Err(TrailingBytes)
      else Ok(Tail(nonce, height, key, Slice(bytes, at + 50, 64)))
  }

  /** Everything up to the re-encoding check, the strings still bytes. */
  function Parsed(bytes: seq<Byte>): Result<Signed<seq<Byte>>, Error> {
    var head :- HeadOf(bytes);
    var call :- CallAt(bytes, head.at);
    var tail :- TailAt(bytes, call.at);
    Ok(Signed(head.senderId, head.receiverId, call.methodName, call.callArgs, call.gas, call.deposit,
      tail.nonce, tail.maxBlockHeight, tail.publicKey, tail.signature))
  }

  /** `decodeSignedDelegate`: parse, read the strings, and refuse what does not re-encode to the same bytes. */
  function Decoded(bytes: seq<Byte>, utf8: Utf8): Result<Signed<string>, Error> {
    var raw :- Parsed(bytes);
    var d := Read(raw, utf8);
    if Fits(Written(d, utf8)) && Borsh(Written(d, utf8)) == bytes then Ok(d) else Err(DoesNotReencode)
  }

  // ---- What is laid out is parsed ----

  lemma UintNext(bytes: seq<Byte>, at: nat, n: nat, w: nat, rest: seq<Byte>)
    requires n < Width(w) && Next(bytes, at, ToLE(n, w), rest)
    ensures UintAt(bytes, at, w) == Ok(n)
    ensures at + w <= |bytes| && bytes[at + w..] == rest
  {
    SliceNext(bytes, at, ToLE(n, w), rest);
    FromToLE(n, w);
  }

  lemma StrNext(bytes: seq<Byte>, at: nat, s: seq<Byte>, rest: seq<Byte>)
    requires |s| < Width(4) && Next(bytes, at, Counted(s), rest)
    ensures StrAt(bytes, at) == Ok(Text(s, at + |Counted(s)|))
    ensures at + |Counted(s)| <= |bytes| && bytes[at + |Counted(s)|..] == rest
  {
    Nested([], [], ToLE(|s|, 4), s, rest);
    UintNext(bytes, at, |s|, 4, s + rest);
    SliceNext(bytes, at + 4, s, rest);
  }

  lemma U128Joined(bytes: seq<Byte>, at: nat, all: seq<Byte>)
    requires |all| == 16 && Slice(bytes, at, 8) == all[..8] && Slice(bytes, at + 8, 8) == all[8..]
    ensures U128At(bytes, at) == Ok(FromLE(all))
  {
    assert all == all[..8] + all[8..];
    FromLEHalves(all[..8], all[8..]);
    Widths();
  }

  lemma U128Next(bytes: seq<Byte>, at: nat, n: nat, rest: seq<Byte>)
    requires n < Width(16) && Next(bytes, at, ToLE(n, 16), rest)
    ensures U128At(bytes, at) == Ok(n)
    ensures at + 16 <= |bytes| && bytes[at + 16..] == rest
  {
    var all := ToLE(n, 16);
    SliceNext(bytes, at, all, rest);
    FromToLE(n, 16);
    U128Joined(bytes, at, all);
  }

  lemma HeadLaidOut(bytes: seq<Byte>, d: Signed<seq<Byte>>, rest: seq<Byte>)
    requires Fits(d) && Next(bytes, 0, HeadBytes(d), rest)
    ensures HeadOf(bytes) == Ok(Head(d.senderId, d.receiverId, |HeadBytes(d)|))
  {
    hide FromLE, ToLE, UintAt, StrAt, Counted;
    var sender, receiver := Counted(d.senderId), Counted(d.receiverId);
    Nested(sender, receiver, ToLE(1, 4), [2], rest);
    StrNext(bytes, 0, d.senderId, receiver + (ToLE(1, 4) + ([2] + rest)));
    StrNext(bytes, |sender|, d.receiverId, ToLE(1, 4) + ([2] + rest));
    Widths();
    UintNext(bytes, |sender| + |receiver|, 1, 4, [2] + rest);
    SliceNext(bytes, |sender| + |receiver| + 4, [2], rest);
  }

  lemma CallLaidOut(bytes: seq<Byte>, start: nat, d: Signed<seq<Byte>>, rest: seq<Byte>)
    requires Fits(d) && Next(bytes, start, CallBytes(d), rest)
    ensures CallAt(bytes, start) ==
      Ok(Call(d.methodName, d.callArgs, d.gas, d.deposit, start + |CallBytes(d)|))
  {
    hide FromLE, ToLE, U128At, UintAt, StrAt, Counted;
    var name, args, gas, deposit := Counted(d.methodName), Counted(d.callArgs), ToLE(d.gas, 8), ToLE(d.deposit, 16);
    Nested(name, args, gas, deposit, rest);
    StrNext(bytes, start, d.methodName, args + (gas + (deposit + rest)));
    StrNext(bytes, start + |name|, d.callArgs, gas + (deposit + rest));
    UintNext(bytes, start + |name| + |args|, d.gas, 8, deposit + rest);
    U128Next(bytes, start + |name| + |args| + 8, d.deposit, rest);
  }

  /** `extra` is whatever follows the signature: the parse accepts nothing there. */
  lemma TailLaidOut(bytes: seq<Byte>, at: nat, d: Signed<seq<Byte>>, extra: seq<Byte>)
    requires Fits(d) && Next(bytes, at, TailBytes(d), extra)
    ensures TailAt(bytes, at) ==
      if extra == [] then Ok(Tail(d.nonce, d.maxBlockHeight, d.publicKey, d.signature)) else Err(TrailingBytes)
  {
    hide FromLE, ToLE, UintAt, Base58.Encoded, Base58.Decoded;
    var nonce, height, key, end := ToLE(d.nonce, 8), ToLE(d.maxBlockHeight, 8), d.publicKey, d.signature + extra;
    Nested(nonce + height + [0] + key, [], [0], d.signature, extra);
    assert nonce + height + [0] + key + [] == nonce + height + [0] + key;
    Nested(nonce, height, [0], key, [0] + end);
    UintNext(bytes, at, d.nonce, 8, height + ([0] + (key + ([0] + end))));
    UintNext(bytes, at + 8, d.maxBlockHeight, 8, [0] + (key + ([0] + end)));
    SliceNext(bytes, at + 16, [0], key + ([0] + end));
    SliceNext(bytes, at + 17, key, [0] + end);
    Base58.DecodedEncoded(key);
    SliceNext(bytes, at + 49, [0], end);
    SliceNext(bytes, at + 50, d.signature, extra);
  }

  /** A laid out delegate parses to itself, and refuses as soon as one more byte follows it. */
  lemma ParsedLaidOut(d: Signed<seq<Byte>>, extra: seq<Byte>)
    requires Fits(d)
    ensures Parsed(Borsh(d) + extra) == if extra == [] then Ok(d) else Err(TrailingBytes)
  {
    hide FromLE, ToLE, U128At, HeadOf, CallAt, TailAt, HeadBytes, CallBytes, TailBytes;
    var bytes := Borsh(d) + extra;
    var head, call, tail := HeadBytes(d), CallBytes(d), TailBytes(d);
    assert bytes == head + (call + (tail + extra));
    assert bytes[0..] == bytes;
    HeadLaidOut(bytes, d, call + (tail + extra));
    CallLaidOut(bytes, |head|, d, tail + extra);
    var at := |head| + |call|;
    assert bytes[at..] == tail + extra;
    TailLaidOut(bytes, at, d, extra);
  }

  /** The bytes, field by field: counted strings, one action of kind 2, and an ed25519 key and signature of kind 0. */
  lemma BorshFields(d: Signed<seq<Byte>>)
    requires Fits(d)
    ensures Borsh(d) ==
              ToLE(|d.senderId|, 4) + d.senderId + ToLE(|d.receiverId|, 4) + d.receiverId + [1, 0, 0, 0] + [2]
              + ToLE(|d.methodName|, 4) + d.methodName + ToLE(|d.callArgs|, 4) + d.callArgs
              + ToLE(d.gas, 8) + ToLE(d.deposit, 16)
              + ToLE(d.nonce, 8) + ToLE(d.maxBlockHeight, 8) + [0] + d.publicKey + [0] + d.signature
    ensures |Borsh(d)| == 159 + |d.senderId| + |d.receiverId| + |d.methodName| + |d.callArgs|
  {
    OneAsBytes();
    hide ToLE;
    var sender, receiver := ToLE(|d.senderId|, 4), ToLE(|d.receiverId|, 4);
    var name, args, gas, deposit := ToLE(|d.methodName|, 4), ToLE(|d.callArgs|, 4), ToLE(d.gas, 8), ToLE(d.deposit, 16);
    var nonce, height := ToLE(d.nonce, 8), ToLE(d.maxBlockHeight, 8);
    var head := sender + d.senderId + receiver + d.receiverId + [1, 0, 0, 0] + [2];
    assert HeadBytes(d) == head;
    assert CallBytes(d) == name + d.methodName + args + d.callArgs + gas + deposit;
    Flat(head, name, d.methodName, args, d.callArgs, gas, deposit);
    Flat(head + CallBytes(d), nonce, height, [0], d.publicKey, [0], d.signature);
    assert Borsh(d) == (head + CallBytes(d)) + TailBytes(d);
  }

  lemma Flat(a: seq<Byte>, b: seq<Byte>, c: seq<Byte>, d: seq<Byte>, e: seq<Byte>, f: seq<Byte>, g: seq<Byte>)
    ensures a + (b + c + d + e + f + g) == a + b + c + d + e + f + g
  {
    assert a + (b + c + d) == a + b + c + d;
    assert a + ((b + c + d) + (e + f + g)) == (a + (b + c + d)) + (e + f + g);
  }

  lemma OneAsBytes()
    ensures ToLE(1, 4) == [1, 0, 0, 0]
  {
    assert ToLE(0, 1) == [0] + ToLE(0, 0) == [0];
    assert ToLE(0, 2) == [0] + ToLE(0, 1) == [0, 0];
    assert ToLE(0, 3) == [0] + ToLE(0, 2) == [0, 0, 0];
  }

  /** A head whose count of actions or kind of action is another. */
  function HeadWith(d: Signed<seq<Byte>>, count: nat, kind: Byte): seq<Byte> {
    Counted(d.senderId) + Counted(d.receiverId) + ToLE(count, 4) + [kind]
  }

  lemma HeadRefused(bytes: seq<Byte>, d: Signed<seq<Byte>>, count: nat, kind: Byte, rest: seq<Byte>)
    requires Fits(d) && count < Width(4) && Next(bytes, 0, HeadWith(d, count, kind), rest)
    ensures count != 1 ==> HeadOf(bytes) == Err(NotOneAction)
    ensures count == 1 && kind != 2 ==> HeadOf(bytes) == Err(NotAFunctionCall)
  {
    hide FromLE, ToLE, UintAt, StrAt, Counted;
    var sender, receiver := Counted(d.senderId), Counted(d.receiverId);
    Nested(sender, receiver, ToLE(count, 4), [kind], rest);
    StrNext(bytes, 0, d.senderId, receiver + (ToLE(count, 4) + ([kind] + rest)));
    StrNext(bytes, |sender|, d.receiverId, ToLE(count, 4) + ([kind] + rest));
    UintNext(bytes, |sender| + |receiver|, count, 4, [kind] + rest);
    SliceNext(bytes, |sender| + |receiver| + 4, [kind], rest);
  }

  /** A tail whose key or signature is of another kind. */
  function TailWith(d: Signed<seq<Byte>>, key: Byte, signature: Byte): seq<Byte> {
    ToLE(d.nonce, 8) + ToLE(d.maxBlockHeight, 8) + [key] + d.publicKey + [signature] + d.signature
  }

  lemma TailRefused(bytes: seq<Byte>, at: nat, d: Signed<seq<Byte>>, kind: Byte, other: Byte, extra: seq<Byte>)
    requires Fits(d) && Next(bytes, at, TailWith(d, kind, other), extra)
    ensures kind != 0 ==> TailAt(bytes, at) == Err(NotAnEd25519Key)
    ensures kind == 0 && other != 0 ==> TailAt(bytes, at) == Err(NotAnEd25519Signature)
  {
    hide FromLE, ToLE, UintAt, Base58.Encoded, Base58.Decoded;
    var nonce, height, key, end := ToLE(d.nonce, 8), ToLE(d.maxBlockHeight, 8), d.publicKey, d.signature + extra;
    Nested(nonce + height + [kind] + key, [], [other], d.signature, extra);
    assert nonce + height + [kind] + key + [] == nonce + height + [kind] + key;
    Nested(nonce, height, [kind], key, [other] + end);
    UintNext(bytes, at, d.nonce, 8, height + ([kind] + (key + ([other] + end))));
    UintNext(bytes, at + 8, d.maxBlockHeight, 8, [kind] + (key + ([other] + end)));
    SliceNext(bytes, at + 16, [kind], key + ([other] + end));
    SliceNext(bytes, at + 17, key, [other] + end);
    Base58.DecodedEncoded(key);
    SliceNext(bytes, at + 49, [other], end);
  }

  /**
   * The throws that name a reason: of a layout with these counts and kinds, the first that is not the one
   * expected decides, whatever the text codec; and trailing bytes only if all are.
   */
  lemma RefusedFor(
      d: Signed<seq<Byte>>, count: nat, kind: Byte, key: Byte, signature: Byte, extra: seq<Byte>, utf8: Utf8)
    requires Fits(d) && count < Width(4) && (count, kind, key, signature, extra) != (1, 2, 0, 0, [])
    ensures Decoded(HeadWith(d, count, kind) + (CallBytes(d) + (TailWith(d, key, signature) + extra)), utf8) ==
      Err(if count != 1 then NotOneAction
          else if kind != 2 then NotAFunctionCall
          else if key != 0 then NotAnEd25519Key
          else if signature != 0 then NotAnEd25519Signature
          else TrailingBytes)
  {
    hide FromLE, ToLE, U128At, HeadOf, CallAt, TailAt, HeadBytes, HeadWith, CallBytes, TailBytes, TailWith;
    var head, call, tail := HeadWith(d, count, kind), CallBytes(d), TailWith(d, key, signature);
    var bytes := head + (call + (tail + extra));
    assert bytes[0..] == bytes;
    HeadRefused(bytes, d, count, kind, call + (tail + extra));
    if count == 1 && kind == 2 {
      SameParts(d);
      HeadLaidOut(bytes, d, call + (tail + extra));
      CallLaidOut(bytes, |head|, d, tail + extra);
      var at := |head| + |call|;
      assert bytes[at..] == tail + extra;
      TailRefused(bytes, at, d, key, signature, extra);
      if key == 0 && signature == 0 {
        TailLaidOut(bytes, at, d, extra);
      }
    }
  }

  lemma SameParts(d: Signed<seq<Byte>>)
    ensures HeadWith(d, 1, 2) == HeadBytes(d) && TailWith(d, 0, 0) == TailBytes(d)
  {
  }

  /** A read that runs past the end throws, and only such a one does: bytes too short for a field's width. */
  lemma ShortReadThrows(bytes: seq<Byte>, at: nat, w: nat)
    requires w > 0
    ensures UintAt(bytes, at, w) == Err(OutOfRange) <==> at + w > |bytes|
    ensures UintAt(bytes, at, w).Err? ==> UintAt(bytes, at, w) == Err(OutOfRange)
    ensures U128At(bytes, at) == Err(OutOfRange) <==> at + 16 > |bytes|
  {
  }

  // ---- What is parsed was laid out ----

  lemma UintBack(bytes: seq<Byte>, at: nat, w: nat)
    requires UintAt(bytes, at, w).Ok? && w > 0
    ensures at + w <= |bytes| && UintAt(bytes, at, w).value < Width(w)
    ensures ToLE(UintAt(bytes, at, w).value, w) == bytes[at..at + w]
  {
    ToFromLE(Slice(bytes, at, w));
  }

  lemma U128Back(bytes: seq<Byte>, at: nat)
    requires U128At(bytes, at).Ok?
    ensures at + 16 <= |bytes| && U128At(bytes, at).value < Width(16)
    ensures ToLE(U128At(bytes, at).value, 16) == bytes[at..at + 16]
  {
    assert at + 16 <= |bytes|;
    var all := bytes[at..at + 16];
    U128Joined(bytes, at, all);
    ToFromLE(all);
  }

  lemma StrBack(bytes: seq<Byte>, at: nat)
    requires StrAt(bytes, at).Ok? && StrAt(bytes, at).value.end <= |bytes|
    ensures var s := StrAt(bytes, at).value;
      |s.bytes| < Width(4) && at <= s.end && Counted(s.bytes) == bytes[at..s.end]
  {
    UintBack(bytes, at, 4);
    TwoJoined(bytes, at, at + 4, StrAt(bytes, at).value.end);
  }

  lemma HeadJoined(bytes: seq<Byte>, at: nat, end: nat, d: Signed<seq<Byte>>)
    requires at <= end && end + 5 <= |bytes|
    requires Counted(d.senderId) == bytes[0..at] && Counted(d.receiverId) == bytes[at..end]
    requires ToLE(1, 4) == bytes[end..end + 4] && bytes[end + 4..end + 5] == [2]
    ensures HeadBytes(d) == bytes[..end + 5]
  {
    FourJoined(bytes, 0, at, end, end + 4, end + 5);
    assert bytes[..end + 5] == bytes[0..end + 5];
  }

  lemma HeadBack(bytes: seq<Byte>, d: Signed<seq<Byte>>, after: nat)
    ensures HeadOf(bytes) == Ok(Head(d.senderId, d.receiverId, after)) ==>
      && |d.senderId| < Width(4) && |d.receiverId| < Width(4)
      && after <= |bytes| && bytes[..after] == HeadBytes(d)
  {
    hide FromLE;
    if HeadOf(bytes) == Ok(Head(d.senderId, d.receiverId, after)) {
      var at := StrAt(bytes, 0).value.end;
      var end := StrAt(bytes, at).value.end;
      UintBack(bytes, end, 4);
      StrBack(bytes, at);
      StrBack(bytes, 0);
      assert Slice(bytes, end + 4, 1) == [2] && bytes[end + 4..end + 5] == [2];
      HeadJoined(bytes, at, end, d);
    }
  }

  lemma CallJoined(bytes: seq<Byte>, start: nat, at: nat, end: nat, d: Signed<seq<Byte>>)
    requires start <= at <= end && end + 24 <= |bytes|
    requires Counted(d.methodName) == bytes[start..at] && Counted(d.callArgs) == bytes[at..end]
    requires ToLE(d.gas, 8) == bytes[end..end + 8] && ToLE(d.deposit, 16) == bytes[end + 8..end + 24]
    ensures CallBytes(d) == bytes[start..end + 24]
  {
    FourJoined(bytes, start, at, end, end + 8, end + 24);
  }

  lemma CallBack(bytes: seq<Byte>, start: nat, d: Signed<seq<Byte>>, after: nat)
    ensures CallAt(bytes, start) == Ok(Call(d.methodName, d.callArgs, d.gas, d.deposit, after)) ==>
      && |d.methodName| < Width(4) && |d.callArgs| < Width(4) && d.gas < Width(8) && d.deposit < Width(16)
      && start <= after <= |bytes| && bytes[start..after] == CallBytes(d)
  {
    hide FromLE, ToLE, U128At;
    if CallAt(bytes, start) == Ok(Call(d.methodName, d.callArgs, d.gas, d.deposit, after)) {
      var at := StrAt(bytes, start).value.end;
      var end := StrAt(bytes, at).value.end;
      UintBack(bytes, end, 8);
      U128Back(bytes, end + 8);
      StrBack(bytes, at);
      StrBack(bytes, start);
      CallJoined(bytes, start, at, end, d);
    }
  }

  lemma TailJoined(bytes: seq<Byte>, at: nat, d: Signed<seq<Byte>>)
    requires at + 114 == |bytes|
    requires ToLE(d.nonce, 8) == bytes[at..at + 8] && ToLE(d.maxBlockHeight, 8) == bytes[at + 8..at + 16]
    requires bytes[at + 16..at + 17] == [0] && bytes[at + 17..at + 49] == d.publicKey
    requires bytes[at + 49..at + 50] == [0] && bytes[at + 50..|bytes|] == d.signature
    ensures TailBytes(d) == bytes[at..]
  {
    FourJoined(bytes, at, at + 8, at + 16, at + 17, at + 49);
    TwoJoined(bytes, at, at + 49, at + 50);
    TwoJoined(bytes, at, at + 50, |bytes|);
  }

  lemma TailBack(bytes: seq<Byte>, at: nat, d: Signed<seq<Byte>>)
    ensures TailAt(bytes, at) == Ok(Tail(d.nonce, d.maxBlockHeight, d.publicKey, d.signature)) ==>
      && d.nonce < Width(8) && d.maxBlockHeight < Width(8) && |d.publicKey| == 32 && |d.signature| == 64
      && at <= |bytes| && bytes[at..] == TailBytes(d)
  {
    hide FromLE, Base58.Encoded, Base58.Decoded;
    if TailAt(bytes, at) == Ok(Tail(d.nonce, d.maxBlockHeight, d.publicKey, d.signature)) {
      UintBack(bytes, at, 8);
      UintBack(bytes, at + 8, 8);
      Base58.DecodedEncoded(Slice(bytes, at + 17, 32));
      assert Slice(bytes, at + 16, 1) == bytes[at + 16..at + 17];
      assert Slice(bytes, at + 49, 1) == bytes[at + 49..at + 50];
      assert Slice(bytes, at + 50, 64) == bytes[at + 50..|bytes|];
      TailJoined(bytes, at, d);
    }
  }

  lemma Assembled(bytes: seq<Byte>, d: Signed<seq<Byte>>, at: nat, end: nat)
    requires at <= end <= |bytes|
    requires bytes[..at] == HeadBytes(d) && bytes[at..end] == CallBytes(d) && bytes[end..] == TailBytes(d)
    ensures Borsh(d) == bytes
  {
    assert bytes == bytes[..at] + (bytes[at..end] + bytes[end..]);
  }

  /** Whatever parses is the layout of the fields it gives, to the last byte. */
  lemma LaidOutParsed(bytes: seq<Byte>)
    ensures Parsed(bytes).Ok? ==> Fits(Parsed(bytes).value) && Borsh(Parsed(bytes).value) == bytes
  {
    hide HeadOf, CallAt, TailAt, HeadBytes, CallBytes, TailBytes;
    if Parsed(bytes).Ok? {
      var d := Parsed(bytes).value;
      var at := HeadOf(bytes).value.at;
      var end := CallAt(bytes, at).value.at;
      HeadBack(bytes, d, at);
      CallBack(bytes, at, d, end);
      TailBack(bytes, end, d);
      Assembled(bytes, d, at, end);
    }
  }

  // ---- The round trips ----

  /** A string field survives the text codec. */
  predicate Utf8Safe(d: Signed<seq<Byte>>, utf8: Utf8) {
    && utf8.write(utf8.read(d.senderId)) == d.senderId
    && utf8.write(utf8.read(d.receiverId)) == d.receiverId
    && utf8.write(utf8.read(d.methodName)) == d.methodName
  }

  /** Two delegates with the same bytes are the same. */
  lemma BorshTells(c: Signed<seq<Byte>>, d: Signed<seq<Byte>>)
    requires Fits(c) && Fits(d) && Borsh(c) == Borsh(d)
    ensures c == d
  {
    ParsedLaidOut(c, []);
    ParsedLaidOut(d, []);
    assert Borsh(c) + [] == Borsh(c) && Borsh(d) + [] == Borsh(d);
  }

  /**
   * Every laid out delegate decodes to its fields when its strings are UTF-8, and the re-encoding check
   * is what refuses it otherwise.
   */
  lemma DecodedLaidOut(d: Signed<seq<Byte>>, utf8: Utf8)
    requires Fits(d)
    ensures Decoded(Borsh(d), utf8) == if Utf8Safe(d, utf8) then Ok(Read(d, utf8)) else Err(DoesNotReencode)
  {
    hide Parsed, Borsh;
    ParsedLaidOut(d, []);
    assert Borsh(d) + [] == Borsh(d);
    var again := Written(Read(d, utf8), utf8);
    if Fits(again) && Borsh(again) == Borsh(d) {
      BorshTells(again, d);
    }
  }

  /** The re-encoding check refuses exactly the well laid out bytes with a string that is not UTF-8. */
  lemma ReencodingRefusesIff(bytes: seq<Byte>, utf8: Utf8)
    ensures Decoded(bytes, utf8) == Err(DoesNotReencode) <==>
      exists d :: Fits(d) && Borsh(d) == bytes && !Utf8Safe(d, utf8)
  {
    hide Parsed, Borsh;
    if Decoded(bytes, utf8) == Err(DoesNotReencode) {
      ParseNeverSaysReencode(bytes);
      LaidOutParsed(bytes);
      DecodedLaidOut(Parsed(bytes).value, utf8);
    }
    forall d | Fits(d) && Borsh(d) == bytes && !Utf8Safe(d, utf8)
      ensures Decoded(bytes, utf8) == Err(DoesNotReencode)
    {
      DecodedLaidOut(d, utf8);
    }
  }

  lemma ParseNeverSaysReencode(bytes: seq<Byte>)
    ensures Parsed(bytes) != Err(DoesNotReencode)
  {
  }

  /**
   * The decoder is the inverse of the encoder: it returns a delegate exactly on the bytes that are that
   * delegate's encoding, its strings being texts the codec gives back.
   */
  lemma DecodedIff(bytes: seq<Byte>, d: Signed<string>, utf8: Utf8)
    ensures Decoded(bytes, utf8) == Ok(d) <==>
      && Fits(Written(d, utf8)) && Borsh(Written(d, utf8)) == bytes
      && Read(Written(d, utf8), utf8) == d
  {
    hide Parsed, Borsh, Fits;
    var w := Written(d, utf8);
    if Decoded(bytes, utf8) == Ok(d) {
      var raw := Parsed(bytes).value;
      LaidOutParsed(bytes);
      BorshTells(w, raw);
    }
    if Fits(w) && Borsh(w) == bytes && Read(w, utf8) == d {
      DecodedLaidOut(w, utf8);
    }
  }

  /** Accepted bytes are consumed exactly: nothing shorter and nothing longer is accepted. */
  lemma OnlyWholeInputs(bytes: seq<Byte>, extra: seq<Byte>, utf8: Utf8)
    requires extra != []
    ensures Decoded(bytes, utf8).Ok? ==> Decoded(bytes + extra, utf8) == Err(TrailingBytes)
    ensures Decoded(bytes, utf8).Ok? ==> forall k | 0 <= k < |bytes| :: Decoded(bytes[..k], utf8).Err?
  {
    hide Parsed, Borsh, Fits;
    if Decoded(bytes, utf8).Ok? {
      LaidOutParsed(bytes);
      ParsedLaidOut(Parsed(bytes).value, extra);
      forall k | 0 <= k < |bytes| ensures Decoded(bytes[..k], utf8).Err? {
        LaidOutParsed(bytes[..k]);
        if Parsed(bytes[..k]).Ok? {
          assert bytes == bytes[..k] + bytes[k..];
          ParsedLaidOut(Parsed(bytes[..k]).value, bytes[k..]);
        }
      }
    }
  }

  // ---- The program ----

  /** The closures over the buffer and the cursor. */
  class Reader {
    const bytes: seq<Byte>
    var at: nat

    constructor (bytes: seq<Byte>)
      ensures this.bytes == bytes && at == 0
    {
      this.bytes, at := bytes, 0;
    }

    /** The cursor moves by `n` even where fewer bytes are left. */
    method Raw(n: nat) returns (slice: seq<Byte>)
      modifies this
      ensures slice == Slice(bytes, old(at), n) && at == old(at) + n
    {
      slice := Slice(bytes, at, n);
      at := at + n;
    }

    method U32() returns (r: Result<nat, Error>)
      modifies this
      ensures r == UintAt(bytes, old(at), 4) && at == old(at) + 4
    {
      var b := Raw(4);
      r := if |b| == 4 then Ok(FromLE(b)) else Err(OutOfRange);
    }

    method U64() returns (r: Result<nat, Error>)
      modifies this
      ensures r == UintAt(bytes, old(at), 8) && at == old(at) + 8
    {
      var b := Raw(8);
      r := if |b| == 8 then Ok(FromLE(b)) else Err(OutOfRange);
    }

    method U128() returns (r: Result<nat, Error>)
      modifies this
      ensures r == U128At(bytes, old(at)) && at == old(at) + 16
    {
      var b := Raw(16);
      if |b| < 16 {
        return Err(OutOfRange);
      }
      assert b[8..16] == Slice(bytes, old(at) + 8, 8) && b[..8] == Slice(bytes, old(at), 8);
      r := Ok(FromLE(b[8..16]) * 0x1_0000_0000_0000_0000 + FromLE(b[..8]));
    }

    /** `str()`, but that the bytes are read as text only later. */
    method Str() returns (r: Result<seq<Byte>, Error>)
      modifies this
      ensures r.Err? ==> StrAt(bytes, old(at)) == Err(r.error)
      ensures r.Ok? ==> StrAt(bytes, old(at)) == Ok(Text(r.value, at))
    {
      var n :- U32();
      var b := Raw(n);
      return Ok(b);
    }

    /** The three stages of the decoder, each from where the cursor stands. */
    method ReadHead() returns (r: Result<Head, Error>)
      requires at == 0
      modifies this
      ensures r == HeadOf(bytes) && (r.Ok? ==> at == r.value.at)
    {
      var senderId :- Str();
      var receiverId :- Str();
      var count :- U32();
      if count != 1 {
        return Err(NotOneAction);
      }
      var kind := Raw(1);
      if kind != [2] {
        return Err(NotAFunctionCall);
      }
      return Ok(Head(senderId, receiverId, at));
    }

    method ReadCall() returns (r: Result<Call, Error>)
      modifies this
      ensures r == CallAt(bytes, old(at)) && (r.Ok? ==> at == r.value.at)
    {
      var methodName :- Str();
      var callArgs :- Str();
      var gas :- U64();
      var deposit :- U128();
      return Ok(Call(methodName, callArgs, gas, deposit, at));
    }

    method ReadTail() returns (r: Result<Tail, Error>)
      modifies this
      ensures r == TailAt(bytes, old(at))
    {
      hide KeyOf, FromLE;
      var nonce :- U64();
      var maxBlockHeight :- U64();
      var kind := Raw(1);
      if kind != [0] {
        return Err(NotAnEd25519Key);
      }
      var key := Raw(32);
      var publicKey :- KeyOf(key);
      kind := Raw(1);
      if kind != [0] {
        return Err(NotAnEd25519Signature);
      }
      var signature := Raw(64);
      if at != |bytes| {
        return Err(TrailingBytes);
      }
      return Ok(Tail(nonce, maxBlockHeight, publicKey, signature));
    }
  }

  /** `decodeSignedDelegate`. */
  method DecodeSignedDelegate(bytes: seq<Byte>, utf8: Utf8) returns (r: Result<Signed<string>, Error>)
    ensures r == Decoded(bytes, utf8)
  {
    var reader := new Reader(bytes);
    var head :- reader.ReadHead();
    var call :- reader.ReadCall();
    var tail :- reader.ReadTail();
    var raw := Signed(head.senderId, head.receiverId, call.methodName, call.callArgs, call.gas, call.deposit,
      tail.nonce, tail.maxBlockHeight, tail.publicKey, tail.signature);
    var delegate := Read(raw, utf8);
    var again := Written(delegate, utf8);
    if !Fits(again) || Borsh(again) != bytes {
      return Err(DoesNotReencode);
    }
    return Ok(delegate);
  }
}
