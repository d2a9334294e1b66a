/**
 * Wormhole VAAs around NTT payloads: the parser and builder of chopsticks/probes/_probeNearNttDelivery.ts
 * and the builder of crates/near/scripts/ntt-manager/forkVaa.ts.
 */
module Vaa {
  import opened Buffers
  import opened Numerals
  import opened NttPayload
  import opened Wrappers

  // ---- The parser ----

  /** `BigInt("0x")` on an empty slice, and `numberToHex` of a recovery id that does not fit one byte. */
  datatype VaaError = EmptyNumber | WideRecoveryId

  datatype ParsedTransfer = ParsedTransfer(decimals: nat, amount: nat, to: seq<Byte>, toChain: nat)

  datatype ParsedVaa = ParsedVaa(
    guardianSetIndex: nat, signatures: seq<seq<Byte>>, body: seq<Byte>,
    emitterChain: nat, emitter: seq<Byte>, sequence: nat,
    recipientManager: seq<Byte>, transfer: ParsedTransfer)

  /** `uintAt`: a slice cut short reads as a shorter number; only an empty one throws. */
  function NumberAt(b: seq<Byte>, at: nat, w: nat): Result<nat, VaaError> {
    var slice := Slice(b, at, w);
    if slice == [] then Err(EmptyNumber) else Ok(Value(slice, 256))
  }

  /** Signature `i`: r and s, then v moved up by 27. */
  function SignatureAt(vaa: seq<Byte>, i: nat): Result<seq<Byte>, VaaError> {
    var at := 6 + i * 66;
    var v :- NumberAt(vaa, at + 65, 1);
    if v + 27 > 255 then Err(WideRecoveryId)
    else Ok(Slice(vaa, at + 1, 32) + Slice(vaa, at + 33, 32) + [v + 27])
  }

  function SignaturesFrom(vaa: seq<Byte>, i: nat, count: nat): Result<seq<seq<Byte>>, VaaError>
    requires i <= count
    decreases count - i
  {
    if i == count then Ok([])
    else
      var first :- SignatureAt(vaa, i);
      var rest :- SignaturesFrom(vaa, i + 1, count);
      Ok([first] + rest)
  }

  function Dropped(b: seq<Byte>, n: nat): seq<Byte> {
    if n <= |b| then b[n..] else []
  }

  /** `parseVaa`, on the bytes of an even-length hexadecimal text. */
  function Parsed(vaa: seq<Byte>): Result<ParsedVaa, VaaError> {
    var count :- NumberAt(vaa, 5, 1);
    var signatures :- SignaturesFrom(vaa, 0, count);
    var body := Dropped(vaa, 6 + count * 66);
    var payload := Dropped(body, 51);
    var guardianSetIndex :- NumberAt(vaa, 1, 4);
    var emitterChain :- NumberAt(body, 8, 2);
    var sequence :- NumberAt(body, 42, 8);
    var transfer :- TransferAt(payload);
    Ok(ParsedVaa(guardianSetIndex, signatures, body, emitterChain, Slice(body, 10, 32), sequence,
      Slice(payload, 36, 32), transfer))
  }

  function TransferAt(payload: seq<Byte>): Result<ParsedTransfer, VaaError> {
    var decimals :- NumberAt(payload, 140, 1);
    var amount :- NumberAt(payload, 141, 8);
    var toChain :- NumberAt(payload, 213, 2);
    Ok(ParsedTransfer(decimals, amount, Slice(payload, 181, 32), toChain))
  }

  // ---- The builder ----

  datatype Signature = Signature(guardian: Byte, r: seq<Byte>, s: seq<Byte>, yParity: Byte) {
    predicate WellFormed() {
      |r| == 32 && |s| == 32 && yParity + 27 <= 255
    }
  }

  /** A body's header; the payload follows it. */
  datatype Header = Header(
    timestamp: nat, nonce: nat, emitterChain: nat, emitter: seq<Byte>, sequence: nat, consistency: Byte)
  {
    predicate WellFormed() {
      emitterChain < Width(2) && |emitter| == 32 && sequence < Width(8)
    }
  }

  function BodyBytes(h: Header, payload: seq<Byte>): seq<Byte> {
    ToBE(h.timestamp, 4) + (ToBE(h.nonce, 4) + (ToBE(h.emitterChain, 2) + (h.emitter + (ToBE(h.sequence, 8) +
      ([h.consistency] + payload)))))
  }

  function SignatureBytes(g: Signature): seq<Byte> {
    [g.guardian] + (g.r + (g.s + [g.yParity]))
  }

  function SignaturesBytes(gs: seq<Signature>): seq<Byte> {
    if gs == [] then [] else SignatureBytes(gs[0]) + SignaturesBytes(gs[1..])
  }

  function VaaBytes(guardianSetIndex: nat, gs: seq<Signature>, body: seq<Byte>): seq<Byte>
    requires |gs| < 256
  {
    [1] + (ToBE(guardianSetIndex, 4) + ([|gs|] + (SignaturesBytes(gs) + body)))
  }

  /** What the parser makes of a signature: r, s and v. */
  function Recovered(g: Signature): seq<Byte>
    requires g.WellFormed()
  {
    g.r + g.s + [g.yParity + 27]
  }

  function AllRecovered(gs: seq<Signature>): seq<seq<Byte>>
    requires forall g | g in gs :: g.WellFormed()
  {
    if gs == [] then [] else [Recovered(gs[0])] + AllRecovered(gs[1..])
  }

  // ---- What is built is read ----

  lemma NumberNext(b: seq<Byte>, at: nat, n: nat, w: nat, rest: seq<Byte>)
    requires w > 0 && n < Width(w) && Next(b, at, ToBE(n, w), rest)
    ensures NumberAt(b, at, w) == Ok(n) && at + w <= |b| && b[at + w..] == rest
  {
    SliceNext(b, at, ToBE(n, w), rest);
    ValueToBE(n, w);
  }

  lemma ByteNext(b: seq<Byte>, at: nat, n: Byte, rest: seq<Byte>)
    requires Next(b, at, [n], rest)
    ensures NumberAt(b, at, 1) == Ok(n) && at + 1 <= |b| && b[at + 1..] == rest
  {
    SliceNext(b, at, [n], rest);
    ValueOfOne(n, 256);
  }

  lemma HeaderFields(h: Header, payload: seq<Byte>)
    requires h.WellFormed()
    ensures var body := BodyBytes(h, payload);
      && NumberAt(body, 8, 2) == Ok(h.emitterChain) && Slice(body, 10, 32) == h.emitter
      && NumberAt(body, 42, 8) == Ok(h.sequence) && Dropped(body, 51) == payload
  {
    hide ToBE, Value, Width, NumberAt;
    var body := BodyBytes(h, payload);
    var chain, sequence := ToBE(h.emitterChain, 2), ToBE(h.sequence, 8);
    var rest := [h.consistency] + payload;
    assert body[0..] == body;
    SliceNext(body, 0, ToBE(h.timestamp, 4), ToBE(h.nonce, 4) + (chain + (h.emitter + (sequence + rest))));
    SliceNext(body, 4, ToBE(h.nonce, 4), chain + (h.emitter + (sequence + rest)));
    NumberNext(body, 8, h.emitterChain, 2, h.emitter + (sequence + rest));
    SliceNext(body, 10, h.emitter, sequence + rest);
    NumberNext(body, 42, h.sequence, 8, rest);
    SliceNext(body, 50, [h.consistency], payload);
  }

  lemma SignatureNext(vaa: seq<Byte>, i: nat, g: Signature, rest: seq<Byte>)
    requires g.WellFormed() && Next(vaa, 6 + i * 66, SignatureBytes(g), rest)
    ensures SignatureAt(vaa, i) == Ok(Recovered(g))
    ensures 6 + (i + 1) * 66 <= |vaa| && vaa[6 + (i + 1) * 66..] == rest
  {
    var at := 6 + i * 66;
    assert SignatureBytes(g) + rest == [g.guardian] + (g.r + (g.s + ([g.yParity] + rest)));
    SliceNext(vaa, at, [g.guardian], g.r + (g.s + ([g.yParity] + rest)));
    SliceNext(vaa, at + 1, g.r, g.s + ([g.yParity] + rest));
    SliceNext(vaa, at + 33, g.s, [g.yParity] + rest);
    ByteNext(vaa, at + 65, g.yParity, rest);
  }

  lemma {:induction false} SignaturesNext(vaa: seq<Byte>, i: nat, gs: seq<Signature>, rest: seq<Byte>)
    requires forall g | g in gs :: g.WellFormed()
    requires Next(vaa, 6 + i * 66, SignaturesBytes(gs), rest)
    ensures SignaturesFrom(vaa, i, i + |gs|) == Ok(AllRecovered(gs))
    ensures 6 + (i + |gs|) * 66 <= |vaa| && vaa[6 + (i + |gs|) * 66..] == rest
    decreases |gs|
  {
    if gs == [] {
      assert [] + rest == rest;
    } else {
      var more := SignaturesBytes(gs[1..]);
      assert SignaturesBytes(gs) + rest == SignatureBytes(gs[0]) + (more + rest);
      SignatureNext(vaa, i, gs[0], more + rest);
      SignaturesNext(vaa, i + 1, gs[1..], rest);
    }
  }

  lemma EnvelopeHeader(guardianSetIndex: nat, gs: seq<Signature>, body: seq<Byte>)
    requires guardianSetIndex < Width(4) && |gs| < 256
    ensures var vaa := VaaBytes(guardianSetIndex, gs, body);
      && NumberAt(vaa, 5, 1) == Ok(|gs|) && NumberAt(vaa, 1, 4) == Ok(guardianSetIndex)
      && |vaa| >= 6 && vaa[6..] == SignaturesBytes(gs) + body
  {
    hide ToBE, Value, Width, NumberAt, Slice, SignaturesBytes;
    var vaa := VaaBytes(guardianSetIndex, gs, body);
    var index, count, rest := ToBE(guardianSetIndex, 4), [|gs|], SignaturesBytes(gs) + body;
    assert vaa[0..] == vaa;
    SliceNext(vaa, 0, [1], index + (count + rest));
    NumberNext(vaa, 1, guardianSetIndex, 4, count + rest);
    ByteNext(vaa, 5, |gs|, rest);
  }

  lemma EnvelopeFields(guardianSetIndex: nat, gs: seq<Signature>, body: seq<Byte>)
    requires guardianSetIndex < Width(4) && |gs| < 256 && forall g | g in gs :: g.WellFormed()
    ensures var vaa := VaaBytes(guardianSetIndex, gs, body);
      && NumberAt(vaa, 5, 1) == Ok(|gs|) && NumberAt(vaa, 1, 4) == Ok(guardianSetIndex)
      && SignaturesFrom(vaa, 0, |gs|) == Ok(AllRecovered(gs)) && Dropped(vaa, 6 + |gs| * 66) == body
  {
    hide ToBE, Value, Width, NumberAt, Slice, SignaturesFrom, SignaturesBytes, AllRecovered, VaaBytes;
    EnvelopeHeader(guardianSetIndex, gs, body);
    SignaturesNext(VaaBytes(guardianSetIndex, gs, body), 0, gs, body);
  }

  /** A payload the transfer parser accepts reads the same at fixed offsets. */
  lemma TransferAgrees(payload: seq<Byte>, sourceChainId: int, keccak: seq<Byte> -> seq<Byte>, t: NttTransfer)
    requires NttPayload.Parsed(payload, sourceChainId, keccak) == Ok(Some(t))
    ensures TransferAt(payload) == Ok(ParsedTransfer(t.decimals, t.amount, t.to, t.toChain))
    ensures |payload| >= 215 && t.recipientManager == Address(Slice(payload, 36, 32))
  {
    NestedIsFixed(payload, 4, 1);
    NestedIsFixed(payload, 5, 8);
    NestedIsFixed(payload, 45, 32);
    NestedIsFixed(payload, 77, 2);
    var inner := TransferOf(ManagerOf(payload));
    assert Slice(payload, 140, 1) == [inner[4]];
    ValueOfOne(inner[4], 256);
    hide Value;
  }

  /** The parser's result, put together from its reads. */
  lemma ParsedFrom(vaa: seq<Byte>, count: nat, payload: seq<Byte>, p: ParsedVaa)
    requires NumberAt(vaa, 5, 1) == Ok(count) && SignaturesFrom(vaa, 0, count) == Ok(p.signatures)
    requires NumberAt(vaa, 1, 4) == Ok(p.guardianSetIndex) && Dropped(vaa, 6 + count * 66) == p.body
    requires NumberAt(p.body, 8, 2) == Ok(p.emitterChain) && Slice(p.body, 10, 32) == p.emitter
    requires NumberAt(p.body, 42, 8) == Ok(p.sequence) && Dropped(p.body, 51) == payload
    requires Slice(payload, 36, 32) == p.recipientManager && TransferAt(payload) == Ok(p.transfer)
    ensures Parsed(vaa) == Ok(p)
  {
    hide NumberAt, SignaturesFrom, Dropped, Slice, TransferAt;
  }

  /** Every part of a VAA comes back from its bytes. */
  lemma ParsedBuilt(guardianSetIndex: nat, gs: seq<Signature>, h: Header, payload: seq<Byte>)
    requires guardianSetIndex < Width(4) && |gs| < 256 && (forall g | g in gs :: g.WellFormed()) && h.WellFormed()
    requires TransferAt(payload).Ok?
    ensures
      var body := BodyBytes(h, payload);
      Parsed(VaaBytes(guardianSetIndex, gs, body)) == Ok(ParsedVaa(guardianSetIndex, AllRecovered(gs), body,
        h.emitterChain, h.emitter, h.sequence, Slice(payload, 36, 32), TransferAt(payload).value))
  {
    hide *;
    var body := BodyBytes(h, payload);
    HeaderFields(h, payload);
    EnvelopeFields(guardianSetIndex, gs, body);
    ParsedFrom(VaaBytes(guardianSetIndex, gs, body), |gs|, payload,
      ParsedVaa(guardianSetIndex, AllRecovered(gs), body, h.emitterChain, h.emitter, h.sequence,
        Slice(payload, 36, 32), TransferAt(payload).value));
  }

  /** What the builder prints where in a body, the fields no parser reads among them. */
  lemma BodyLayout(h: Header, payload: seq<Byte>)
    requires h.WellFormed() && h.timestamp < Width(4) && h.nonce < Width(4)
    ensures var body := BodyBytes(h, payload);
      && |body| == 51 + |payload|
      && NumberAt(body, 0, 4) == Ok(h.timestamp) && NumberAt(body, 4, 4) == Ok(h.nonce)
      && NumberAt(body, 8, 2) == Ok(h.emitterChain) && body[10..42] == h.emitter
      && NumberAt(body, 42, 8) == Ok(h.sequence) && body[50] == h.consistency && body[51..] == payload
  {
    hide ToBE, NumberAt;
    HeaderFields(h, payload);
    HeaderLayout(h, payload);
    var body := BodyBytes(h, payload);
    assert Slice(body, 10, 32) == body[10..42] && Dropped(body, 51) == body[51..];
  }

  /** And around it: version 1, the guardian set, and each signature under its guardian's number. */
  lemma EnvelopeLayout(guardianSetIndex: nat, gs: seq<Signature>, body: seq<Byte>, i: nat)
    requires |gs| < 256 && (forall g | g in gs :: g.WellFormed()) && i < |gs|
    ensures var vaa, at := VaaBytes(guardianSetIndex, gs, body), 6 + i * 66;
      && |vaa| == 6 + 66 * |gs| + |body| && vaa[6 + 66 * |gs|..] == body
      && vaa[0] == 1 && vaa[1..5] == ToBE(guardianSetIndex, 4) && vaa[5] == |gs|
      && vaa[at] == gs[i].guardian && vaa[at + 1..at + 33] == gs[i].r && vaa[at + 33..at + 65] == gs[i].s
      && vaa[at + 65] == gs[i].yParity
  {
    hide ToBE, SignaturesBytes, SignatureBytes;
    SignatureLayout(gs, i);
    var vaa, bytes, index := VaaBytes(guardianSetIndex, gs, body), SignaturesBytes(gs), ToBE(guardianSetIndex, 4);
    var head := [1] + index + [|gs|];
    assert vaa == head + bytes + body;
    Embedded(head, bytes, body);
    assert head[0] == 1 && head[1..5] == index && head[5] == |gs|;
    assert vaa[1..5] == head[1..5];
    SliceWithin(vaa, bytes, 6, i * 66, 66);
    assert gs[i] in gs;
    SignatureParts(vaa, 6 + i * 66, gs[i]);
  }

  lemma Embedded(head: seq<Byte>, bytes: seq<Byte>, body: seq<Byte>)
    ensures var all := head + bytes + body;
      all[..|head|] == head && all[|head|..|head| + |bytes|] == bytes && all[|head| + |bytes|..] == body
  {
  }

  lemma SignatureParts(vaa: seq<Byte>, at: nat, g: Signature)
    requires g.WellFormed() && at + 66 <= |vaa| && vaa[at..at + 66] == SignatureBytes(g)
    ensures vaa[at] == g.guardian && vaa[at + 1..at + 33] == g.r && vaa[at + 33..at + 65] == g.s
    ensures vaa[at + 65] == g.yParity
  {
    var signature := SignatureBytes(g);
    SliceWithin(vaa, signature, at, 0, 1);
    SliceWithin(vaa, signature, at, 1, 32);
    SliceWithin(vaa, signature, at, 33, 32);
    SliceWithin(vaa, signature, at, 65, 1);
    assert signature[1..33] == g.r && signature[33..65] == g.s;
  }

  lemma HeaderLayout(h: Header, payload: seq<Byte>)
    requires h.WellFormed() && h.timestamp < Width(4) && h.nonce < Width(4)
    ensures var body := BodyBytes(h, payload);
      && |body| == 51 + |payload|
      && NumberAt(body, 0, 4) == Ok(h.timestamp) && NumberAt(body, 4, 4) == Ok(h.nonce) && body[50] == h.consistency
  {
    hide ToBE, Value, Width, NumberAt;
    var body := BodyBytes(h, payload);
    var rest := ToBE(h.emitterChain, 2) + (h.emitter + (ToBE(h.sequence, 8) + ([h.consistency] + payload)));
    assert body[0..] == body;
    NumberNext(body, 0, h.timestamp, 4, ToBE(h.nonce, 4) + rest);
    NumberNext(body, 4, h.nonce, 4, rest);
  }

  lemma {:induction false} SignatureLayout(gs: seq<Signature>, i: nat)
    requires (forall g | g in gs :: g.WellFormed()) && i < |gs|
    ensures var bytes := SignaturesBytes(gs);
      |bytes| == 66 * |gs| && bytes[i * 66..i * 66 + 66] == SignatureBytes(gs[i])
    decreases |gs|
  {
    var first, rest := SignatureBytes(gs[0]), SignaturesBytes(gs[1..]);
    FirstSignature(gs);
    hide SignatureBytes, SignaturesBytes;
    if i == 0 {
      SignaturesLength(gs[1..]);
      assert (first + rest)[..66] == first;
    } else {
      SignatureLayout(gs[1..], i - 1);
      Behind(first, rest, (i - 1) * 66);
    }
  }

  lemma FirstSignature(gs: seq<Signature>)
    requires (forall g | g in gs :: g.WellFormed()) && gs != []
    ensures SignaturesBytes(gs) == SignatureBytes(gs[0]) + SignaturesBytes(gs[1..]) && |SignatureBytes(gs[0])| == 66
    ensures forall g | g in gs[1..] :: g.WellFormed()
  {
    assert gs[0] in gs && forall g | g in gs[1..] :: g in gs;
  }

  lemma {:induction false} SignaturesLength(gs: seq<Signature>)
    requires forall g | g in gs :: g.WellFormed()
    ensures |SignaturesBytes(gs)| == 66 * |gs|
  {
    if gs != [] {
      FirstSignature(gs);
      SignaturesLength(gs[1..]);
    }
  }

  lemma Behind(first: seq<Byte>, rest: seq<Byte>, at: nat)
    requires |first| == 66 && at + 66 <= |rest|
    ensures (first + rest)[at + 66..at + 132] == rest[at..at + 66]
  {
  }

  /** A recovered signature is r, s and the recovery id plus 27, in 65 bytes. */
  lemma {:induction false} RecoveredAt(gs: seq<Signature>, i: nat)
    requires (forall g | g in gs :: g.WellFormed()) && i < |gs|
    ensures |AllRecovered(gs)| == |gs|
    ensures AllRecovered(gs)[i] == gs[i].r + gs[i].s + [gs[i].yParity + 27] && |AllRecovered(gs)[i]| == 65
    decreases |gs|
  {
    assert gs[0] in gs && forall g | g in gs[1..] :: g in gs;
    if i > 0 {
      RecoveredAt(gs[1..], i - 1);
    } else if |gs| > 1 {
      RecoveredAt(gs[1..], 0);
    }
  }

  // ---- The two parsers agree ----

  /** Each signature has its last byte, and 27 more than it fits a byte. */
  predicate RecoveryIdsFit(vaa: seq<Byte>, i: nat, count: nat) {
    forall k | i <= k < count :: 6 + k * 66 + 65 < |vaa| && vaa[6 + k * 66 + 65] <= 255 - 27
  }

  function BodyOf(vaa: seq<Byte>): seq<Byte>
    requires |vaa| >= 6
  {
    var count: nat := vaa[5];
    Dropped(vaa, 6 + count * 66)
  }

  lemma ByteAt(b: seq<Byte>, at: nat)
    requires at < |b|
    ensures NumberAt(b, at, 1) == Ok(b[at])
  {
    assert Slice(b, at, 1) == [b[at]];
    ValueOfOne(b[at], 256);
  }

  lemma {:induction false} SignaturesReadIff(vaa: seq<Byte>, i: nat, count: nat)
    requires i <= count
    ensures SignaturesFrom(vaa, i, count).Ok? <==> RecoveryIdsFit(vaa, i, count)
    decreases count - i
  {
    if i < count {
      var at := 6 + i * 66 + 65;
      if at < |vaa| {
        ByteAt(vaa, at);
      }
      SignaturesReadIff(vaa, i + 1, count);
      assert RecoveryIdsFit(vaa, i, count) <==>
        at < |vaa| && vaa[at] <= 255 - 27 && RecoveryIdsFit(vaa, i + 1, count);
    }
  }

  lemma NumberWithin(b: seq<Byte>, at: nat, w: nat)
    requires w > 0 && at < |b|
    ensures NumberAt(b, at, w).Ok?
  {
  }

  /**
   * On a VAA around a payload that the transfer parser accepts, the VAA parser fails for nothing but a
   * recovery id that does not fit its byte, and it reads the same transfer and the same recipient.
   */
  lemma ParsersAgree(vaa: seq<Byte>, sourceChainId: int, keccak: seq<Byte> -> seq<Byte>, t: NttTransfer)
    requires |vaa| >= 6
    requires NttPayload.Parsed(Dropped(BodyOf(vaa), 51), sourceChainId, keccak) == Ok(Some(t))
    ensures Parsed(vaa).Ok? <==> RecoveryIdsFit(vaa, 0, vaa[5])
    ensures Parsed(vaa).Ok? ==>
      var p := Parsed(vaa).value;
      && p.transfer == ParsedTransfer(t.decimals, t.amount, t.to, t.toChain)
      && |p.recipientManager| == 32 && p.recipientManager[12..] == t.recipientManager
  {
    hide Value, NumberAt, SignaturesFrom, RecoveryIdsFit, TransferAt, NttPayload.Parsed;
    var body := BodyOf(vaa);
    TransferAgrees(Dropped(body, 51), sourceChainId, keccak, t);
    ByteAt(vaa, 5);
    SignaturesReadIff(vaa, 0, vaa[5]);
    NumberWithin(vaa, 1, 4);
    NumberWithin(body, 8, 2);
    NumberWithin(body, 42, 8);
  }

  /**
   * What either builder prints, read back by every reader: a transfer whose id carries `sequence`, in a
   * payload that ends in an empty field, in a VAA whose own sequence and signatures come back as well.
   */
  lemma BuiltReadBack(m: Message, sequence: nat, h: Header, gs: seq<Signature>, guardianSetIndex: nat,
      sourceChainId: nat, keccak: seq<Byte> -> seq<Byte>)
    requires m.WellFormed() && sequence < Width(8) && m.id == Zeros(24) + ToBE(sequence, 8)
    requires guardianSetIndex < Width(4) && |gs| < 256 && (forall g | g in gs :: g.WellFormed()) && h.WellFormed()
    requires sourceChainId < 0x1_0000
    ensures
      var manager := ManagerBytes(m, TransferBytes(m, []), []);
      var payload := PayloadBytes(m, manager, ToBE(0, 2));
      && NttPayload.Parsed(payload, sourceChainId, keccak) == Ok(Some(NttTransfer(
          keccak(ToBE(sourceChainId, 2) + manager),
          m.id, Some(sequence), m.sender, m.sourceManager[12..], m.recipientManager[12..],
          m.decimals, m.amount, m.sourceToken[12..], m.to, m.toChain)))
      && SettlementSequence(payload) == Ok(sequence)
      && Parsed(VaaBytes(guardianSetIndex, gs, BodyBytes(h, payload))) == Ok(ParsedVaa(
          guardianSetIndex, AllRecovered(gs), BodyBytes(h, payload), h.emitterChain, h.emitter, h.sequence,
          m.recipientManager, ParsedTransfer(m.decimals, m.amount, m.to, m.toChain)))
  {
    Widths();
    var transfer := TransferBytes(m, []);
    var manager := ManagerBytes(m, transfer, []);
    var payload := PayloadBytes(m, manager, ToBE(0, 2));
    TransferFields(m, []);
    ManagerFields(m, transfer, []);
    assert |manager| == 145;
    PayloadFields(m, manager, ToBE(0, 2));
    SequenceOfPadded(m, sequence, manager);
    ParsedLaidOut(m, [], [], ToBE(0, 2), sourceChainId, keccak);
    hide *;
    var t := NttPayload.Parsed(payload, sourceChainId, keccak).value.value;
    ReadersAgree(payload, sourceChainId, keccak, t);
    TransferAgrees(payload, sourceChainId, keccak, t);
    ParsedBuilt(guardianSetIndex, gs, h, payload);
  }
}
