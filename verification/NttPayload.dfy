/**
 * NTT transceiver payloads: the parser of agents/scan/src/ingest/payload.ts, the fixed-offset readers of
 * agents/relayer/src/engine/ntt.ts, and the layout both read.
 */
module NttPayload {
  import opened Buffers
  import Hex
  import opened Numerals
  import opened Wrappers

  const TRANSCEIVER_PREFIX: seq<Byte> := [0x99, 0x45, 0xFF, 0x10]
  const NTT_PREFIX: seq<Byte> := [0x99, 0x4E, 0x54, 0x54]

  /** A read past the end of a buffer, or a number too wide for the bytes it is written to. */
  datatype Error = OutOfRange

  // ---- The layout ----

  datatype Message = Message(
    sourceManager: seq<Byte>, recipientManager: seq<Byte>,
    id: seq<Byte>, sender: seq<Byte>,
    decimals: Byte, amount: nat, sourceToken: seq<Byte>, to: seq<Byte>, toChain: nat)
  {
    predicate WellFormed() {
      && |sourceManager| == 32 && |recipientManager| == 32 && |id| == 32 && |sender| == 32
      && amount < Width(8) && |sourceToken| == 32 && |to| == 32 && toChain < Width(2)
    }
  }

  /** NativeTokenTransfer; `more` is whatever follows its fields. */
  function TransferBytes(m: Message, more: seq<Byte>): seq<Byte> {
    NTT_PREFIX + ([m.decimals] + (ToBE(m.amount, 8) + (m.sourceToken + (m.to + (ToBE(m.toChain, 2) + more)))))
  }

  /** NttManagerMessage around an encoded transfer. */
  function ManagerBytes(m: Message, transfer: seq<Byte>, more: seq<Byte>): seq<Byte> {
    m.id + (m.sender + (ToBE(|transfer|, 2) + (transfer + more)))
  }

  /** TransceiverMessage around an encoded manager message. */
  function PayloadBytes(m: Message, manager: seq<Byte>, more: seq<Byte>): seq<Byte> {
    TRANSCEIVER_PREFIX + (m.sourceManager + (m.recipientManager + (ToBE(|manager|, 2) + (manager + more))))
  }

  // ---- The parser ----

  /** Big-endian reads; they need the whole field to be there. */
  function UintAt(b: seq<Byte>, at: nat, w: nat): nat
    requires at + w <= |b|
  {
    Value(Slice(b, at, w), 256)
  }

  datatype NttTransfer = NttTransfer(
    digest: seq<Byte>, id: seq<Byte>, sequence: Option<nat>, sender: seq<Byte>,
    sourceManager: seq<Byte>, recipientManager: seq<Byte>,
    decimals: Byte, amount: nat, sourceToken: seq<Byte>, to: seq<Byte>, toChain: nat)

  /** The manager message: as many bytes as its length says, or as there are. */
  function ManagerOf(b: seq<Byte>): seq<Byte>
    requires |b| >= 70
  {
    Slice(b, 70, UintAt(b, 68, 2))
  }

  function TransferOf(manager: seq<Byte>): seq<Byte>
    requires |manager| >= 66
  {
    Slice(manager, 66, UintAt(manager, 64, 2))
  }

  /** The id as a sequence, when its first 24 bytes are zero. */
  function SequenceOf(manager: seq<Byte>): Option<nat>
    requires |manager| >= 66
  {
    if forall i | 0 <= i < 24 :: manager[i] == 0 then Some(UintAt(manager, 24, 8)) else None
  }

  /** The h160 of a left-padded address. */
  function Address(bytes32: seq<Byte>): seq<Byte>
    requires |bytes32| == 32
  {
    bytes32[12..]
  }

  /** The checks that send a payload away as not a transfer, in order. */
  predicate IsTransfer(b: seq<Byte>) {
    && |b| >= 70
    && Slice(b, 0, 4) == TRANSCEIVER_PREFIX
    && var manager := ManagerOf(b);
    && |manager| >= 66
    && var inner := TransferOf(manager);
    && |inner| >= 79
    && Slice(inner, 0, 4) == NTT_PREFIX
  }

  /** `parseNttTransfer` on the payload's bytes; `None` is its `null`. `keccak` is any hash. */
  function Parsed(b: seq<Byte>, sourceChainId: int, keccak: seq<Byte> -> seq<Byte>)
    : Result<Option<NttTransfer>, Error>
  {
    if !IsTransfer(b) then Ok(None)
    else if !(0 <= sourceChainId < 0x1_0000) then Err(OutOfRange)
    else
      var manager := ManagerOf(b);
      var inner := TransferOf(manager);
      Ok(Some(NttTransfer(
        keccak(ToBE(sourceChainId, 2) + manager),
        Slice(manager, 0, 32), SequenceOf(manager), Slice(manager, 32, 32),
        Address(Slice(b, 4, 32)), Address(Slice(b, 36, 32)),
        inner[4], UintAt(inner, 5, 8), Address(Slice(inner, 13, 32)), Slice(inner, 45, 32), UintAt(inner, 77, 2))))
  }

  /** The payload's text: an optional 0x and hexadecimal, read leniently. */
  function BytesOf(text: string): seq<Byte> {
    Hex.Unhex(if |text| >= 2 && text[..2] == "0x" then text[2..] else text)
  }

  /** Both spellings of a payload read as its bytes. */
  lemma BytesOfWritten(b: seq<Byte>)
    ensures BytesOf(Hex.HexOf(b)) == b && BytesOf("0x" + Hex.HexOf(b)) == b
  {
    Hex.UnhexOfHex(b);
    assert ("0x" + Hex.HexOf(b))[2..] == Hex.HexOf(b);
    assert b != [] ==> Hex.HexOf(b)[1] != 'x';
  }

  // ---- The fixed-offset readers ----

  /** `isNttTransfer` */
  predicate IsNttTransfer(payload: seq<Byte>) {
    Slice(payload, 0, 4) == TRANSCEIVER_PREFIX
  }

  /** `settlementSequence` */
  function SettlementSequence(payload: seq<Byte>): Result<nat, Error> {
    if |payload| < 102 then Err(OutOfRange) else Ok(UintAt(payload, 94, 8))
  }

  function Power10(n: nat): nat {
    if n == 0 then 1 else 10 * Power10(n - 1)
  }

  datatype AmountError = Short | TooPrecise(trimmedTo: nat)

  /** `settlementAmount` */
  function SettlementAmount(payload: seq<Byte>, decimals: nat): Result<nat, AmountError> {
    if |payload| < 141 then Err(Short)
    else if payload[140] > decimals then Err(TooPrecise(payload[140]))
    else if |payload| < 149 then Err(Short)
    else Ok(UintAt(payload, 141, 8) * Power10(decimals - payload[140]))
  }

  /** `recipientManager` */
  function RecipientManager(payload: seq<Byte>): seq<Byte> {
    Slice(payload, 36, 32)
  }

  /** `isForManager`: the manager's 20 bytes left-padded to 32. */
  predicate IsForManager(payload: seq<Byte>, manager: seq<Byte>)
    requires |manager| == 20
  {
    RecipientManager(payload) == Zeros(12) + manager
  }

  // ---- What is a transfer, byte by byte ----

  /** Two bytes as a big-endian number. */
  lemma ValueOfTwo(high: Byte, low: Byte)
    ensures Value([high, low], 256) == (high as nat) * 256 + low
  {
    ValueOfOne(high, 256);
    ValueSnoc([high], low, 256);
    assert [high] + [low] == [high, low];
  }

  /**
   * A payload is taken for a transfer exactly when it starts 99 45 FF 10, its manager message (as long as
   * bytes 68 and 69 say, or cut off at the end) has 66 bytes, and the transfer in that (as long as bytes 134
   * and 135 say, or cut off) has 79 and starts 99 4E 54 54.
   */
  lemma IsTransferIff(b: seq<Byte>)
    ensures IsTransfer(b) <==>
      && |b| >= 215 && b[..4] == [0x99, 0x45, 0xFF, 0x10] && b[136..140] == [0x99, 0x4E, 0x54, 0x54]
      && (b[68] as nat) * 256 + b[69] >= 145 && (b[134] as nat) * 256 + b[135] >= 79
  {
    if |b| >= 70 {
      ValueOfTwo(b[68], b[69]);
      assert Slice(b, 0, 4) == b[..4] && Slice(b, 68, 2) == [b[68], b[69]];
      var manager := ManagerOf(b);
      if |manager| >= 66 {
        assert manager == b[70..70 + |manager|];
        ValueOfTwo(b[134], b[135]);
        assert Slice(manager, 64, 2) == [b[134], b[135]];
        var inner := TransferOf(manager);
        if |inner| >= 79 {
          assert inner == manager[66..66 + |inner|];
          assert Slice(inner, 0, 4) == b[136..140];
        }
      }
    }
  }

  /** Where every field of a transfer stands, however long its messages say they are. */
  lemma ParsedFields(b: seq<Byte>, sourceChainId: int, keccak: seq<Byte> -> seq<Byte>, t: NttTransfer)
    requires Parsed(b, sourceChainId, keccak) == Ok(Some(t))
    ensures |b| >= 215 && t.sourceManager == b[16..36] && t.recipientManager == b[48..68]
    ensures t.id == b[70..102] && t.sender == b[102..134]
    ensures t.decimals == b[140] && t.amount == Value(b[141..149], 256)
    ensures t.sourceToken == b[161..181] && t.to == b[181..213] && t.toChain == Value(b[213..215], 256)
    ensures var declared := (b[68] as nat) * 256 + b[69];
            t.digest == keccak(ToBE(sourceChainId, 2) + b[70..if 70 + declared <= |b| then 70 + declared else |b|])
  {
    hide Value, ToBE, Slice, ManagerOf, TransferOf, UintAt, SequenceOf;
    IsTransferIff(b);
    ManagerLength(b);
    ManagerStands(b);
    TransferStands(b);
    assert Slice(b, 4, 32) == b[4..36] && Slice(b, 36, 32) == b[36..68] by {
      SliceWithin(b, b, 0, 4, 32);
      SliceWithin(b, b, 0, 36, 32);
    }
    assert b[149..181][12..] == b[161..181];
  }

  lemma ManagerStands(b: seq<Byte>)
    requires IsTransfer(b)
    ensures var manager := ManagerOf(b);
      && 70 + |manager| <= |b| && manager == b[70..70 + |manager|]
      && Slice(manager, 0, 32) == b[70..102] && Slice(manager, 32, 32) == b[102..134]
  {
    hide Value;
    var manager := ManagerOf(b);
    assert manager == b[70..70 + |manager|];
    SliceWithin(b, manager, 70, 0, 32);
    SliceWithin(b, manager, 70, 32, 32);
  }

  lemma TransferStands(b: seq<Byte>)
    requires IsTransfer(b)
    ensures var inner := TransferOf(ManagerOf(b));
      && |b| >= 215 && inner[4] == b[140] && UintAt(inner, 5, 8) == Value(b[141..149], 256)
      && Slice(inner, 13, 32) == b[149..181] && Slice(inner, 45, 32) == b[181..213]
      && UintAt(inner, 77, 2) == Value(b[213..215], 256)
  {
    hide Value;
    ManagerStands(b);
    var manager := ManagerOf(b);
    var inner := TransferOf(manager);
    SliceWithin(b, manager, 70, 66, |inner|);
    assert inner == manager[66..66 + |inner|];
    SliceWithin(b, inner, 136, 5, 8);
    SliceWithin(b, inner, 136, 13, 32);
    SliceWithin(b, inner, 136, 45, 32);
    SliceWithin(b, inner, 136, 77, 2);
  }

  lemma ManagerLength(b: seq<Byte>)
    requires |b| >= 70
    ensures var declared := (b[68] as nat) * 256 + b[69];
            |ManagerOf(b)| == if 70 + declared <= |b| then declared else |b| - 70
  {
    ValueOfTwo(b[68], b[69]);
    assert Slice(b, 68, 2) == [b[68], b[69]];
  }

  /** The parser refuses nothing else: `null` is what is no transfer, and a throw is a source chain that fits no u16. */
  lemma ParsedOutcome(b: seq<Byte>, sourceChainId: int, keccak: seq<Byte> -> seq<Byte>)
    ensures Parsed(b, sourceChainId, keccak) == Ok(None) <==> !IsTransfer(b)
    ensures Parsed(b, sourceChainId, keccak).Err? <==> IsTransfer(b) && (sourceChainId < 0 || sourceChainId > 65_535)
  {
  }

  /** The fixed-offset readers' own throws, on any payload whatever. */
  lemma FixedReadersThrowIff(payload: seq<Byte>, decimals: nat)
    ensures IsNttTransfer(payload) <==> |payload| >= 4 && payload[..4] == [0x99, 0x45, 0xFF, 0x10]
    ensures SettlementSequence(payload).Err? <==> |payload| < 102
    ensures SettlementSequence(payload).Ok? ==> SettlementSequence(payload).value == Value(payload[94..102], 256)
    ensures SettlementAmount(payload, decimals) == Err(Short) <==>
              |payload| < 141 || (|payload| < 149 && payload[140] <= decimals)
    ensures |payload| >= 141 && payload[140] > decimals ==>
              SettlementAmount(payload, decimals) == Err(TooPrecise(payload[140]))
    ensures SettlementAmount(payload, decimals).Ok? ==>
              SettlementAmount(payload, decimals).value ==
                Value(payload[141..149], 256) * Power(10, decimals - payload[140])
  {
    if |payload| >= 141 && payload[140] <= decimals {
      Power10Is(decimals - payload[140]);
    }
  }

  lemma {:induction false} Power10Is(n: nat)
    ensures Power10(n) == Power(10, n)
  {
    if n > 0 {
      Power10Is(n - 1);
    }
  }

  // ---- What is laid out is read ----

  lemma TransferFields(m: Message, more: seq<Byte>)
    requires m.WellFormed()
    ensures var inner := TransferBytes(m, more);
      && |inner| == 79 + |more| && Slice(inner, 0, 4) == NTT_PREFIX && inner[4] == m.decimals
      && UintAt(inner, 5, 8) == m.amount && Slice(inner, 13, 32) == m.sourceToken
      && Slice(inner, 45, 32) == m.to && UintAt(inner, 77, 2) == m.toChain
  {
    hide ToBE, Value, Width;
    var inner := TransferBytes(m, more);
    var amount, chain := ToBE(m.amount, 8), ToBE(m.toChain, 2);
    assert inner[0..] == inner;
    SliceNext(inner, 0, NTT_PREFIX, [m.decimals] + (amount + (m.sourceToken + (m.to + (chain + more)))));
    SliceNext(inner, 4, [m.decimals], amount + (m.sourceToken + (m.to + (chain + more))));
    SliceNext(inner, 5, amount, m.sourceToken + (m.to + (chain + more)));
    SliceNext(inner, 13, m.sourceToken, m.to + (chain + more));
    SliceNext(inner, 45, m.to, chain + more);
    SliceNext(inner, 77, chain, more);
    assert inner[79..] == more;
    ValueToBE(m.amount, 8);
    ValueToBE(m.toChain, 2);
  }

  lemma ManagerFields(m: Message, transfer: seq<Byte>, more: seq<Byte>)
    requires m.WellFormed() && |transfer| < Width(2)
    ensures var manager := ManagerBytes(m, transfer, more);
      && |manager| >= 66 && Slice(manager, 0, 32) == m.id && Slice(manager, 32, 32) == m.sender
      && UintAt(manager, 64, 2) == |transfer| && TransferOf(manager) == transfer
  {
    hide ToBE, Value, Width;
    var manager := ManagerBytes(m, transfer, more);
    var len := ToBE(|transfer|, 2);
    assert manager[0..] == manager;
    SliceNext(manager, 0, m.id, m.sender + (len + (transfer + more)));
    SliceNext(manager, 32, m.sender, len + (transfer + more));
    SliceNext(manager, 64, len, transfer + more);
    SliceNext(manager, 66, transfer, more);
    ValueToBE(|transfer|, 2);
  }

  lemma PayloadFields(m: Message, manager: seq<Byte>, more: seq<Byte>)
    requires m.WellFormed() && |manager| < Width(2)
    ensures var b := PayloadBytes(m, manager, more);
      && |b| >= 70 && Slice(b, 0, 4) == TRANSCEIVER_PREFIX
      && Slice(b, 4, 32) == m.sourceManager && Slice(b, 36, 32) == m.recipientManager
      && UintAt(b, 68, 2) == |manager| && ManagerOf(b) == manager
  {
    hide ToBE, Value, Width;
    var b := PayloadBytes(m, manager, more);
    var len := ToBE(|manager|, 2);
    assert b[0..] == b;
    SliceNext(b, 0, TRANSCEIVER_PREFIX, m.sourceManager + (m.recipientManager + (len + (manager + more))));
    SliceNext(b, 4, m.sourceManager, m.recipientManager + (len + (manager + more)));
    SliceNext(b, 36, m.recipientManager, len + (manager + more));
    SliceNext(b, 68, len, manager + more);
    SliceNext(b, 70, manager, more);
    ValueToBE(|manager|, 2);
  }

  /** The sequence is read off the id alone: its last 8 bytes, if the 24 before them are zero, and none otherwise. */
  lemma SequenceOfId(manager: seq<Byte>)
    requires |manager| >= 66
    ensures var id := Slice(manager, 0, 32);
      && |id| == 32
      && SequenceOf(manager) == if forall i | 0 <= i < 24 :: id[i] == 0 then Some(Value(id[24..], 256)) else None
  {
    var id := Slice(manager, 0, 32);
    assert id == manager[0..32] && forall i | 0 <= i < 32 :: id[i] == manager[i];
    assert Slice(manager, 24, 8) == id[24..];
  }

  /** Any transfer that parses has a sequence exactly if the first 24 bytes of its id are zero. */
  lemma ParsedSequenceIff(b: seq<Byte>, sourceChainId: int, keccak: seq<Byte> -> seq<Byte>, t: NttTransfer)
    requires Parsed(b, sourceChainId, keccak) == Ok(Some(t))
    ensures |t.id| == 32
    ensures t.sequence == None <==> exists i | 0 <= i < 24 :: t.id[i] != 0
    ensures t.sequence.Some? ==> t.sequence.value == Value(t.id[24..], 256)
  {
    hide Value;
    SequenceOfId(ManagerOf(b));
  }

  /** The sequence of an id that a sequence was written to. */
  lemma SequenceOfPadded(m: Message, sequence: nat, manager: seq<Byte>)
    requires sequence < Width(8) && m.id == Zeros(24) + ToBE(sequence, 8)
    requires |manager| >= 66 && Slice(manager, 0, 32) == m.id
    ensures SequenceOf(manager) == Some(sequence)
  {
    hide ToBE, Width;
    assert forall i | 0 <= i < 24 :: manager[i] == m.id[i] == 0;
    assert Slice(manager, 24, 8) == m.id[24..] == ToBE(sequence, 8);
    ValueToBE(sequence, 8);
  }

  /**
   * Every field of a transfer comes back, whatever follows the transfer in its message, the message in its
   * payload and the payload's last field: the addresses as their last 20 bytes, the digest over the
   * manager message as it stands.
   */
  lemma ParsedLaidOut(m: Message, afterTransfer: seq<Byte>, afterManager: seq<Byte>, trailing: seq<Byte>,
      sourceChainId: nat, keccak: seq<Byte> -> seq<Byte>)
    requires m.WellFormed() && sourceChainId < 0x1_0000
    requires
      var transfer := TransferBytes(m, afterTransfer);
      |transfer| < Width(2) && |ManagerBytes(m, transfer, afterManager)| < Width(2)
    ensures
      var manager := ManagerBytes(m, TransferBytes(m, afterTransfer), afterManager);
      && |manager| >= 66
      && Parsed(PayloadBytes(m, manager, trailing), sourceChainId, keccak) == Ok(Some(NttTransfer(
          keccak(ToBE(sourceChainId, 2) + manager),
          m.id, if forall i | 0 <= i < 24 :: m.id[i] == 0 then Some(Value(m.id[24..], 256)) else None,
          m.sender, m.sourceManager[12..], m.recipientManager[12..],
          m.decimals, m.amount, m.sourceToken[12..], m.to, m.toChain)))
  {
    var transfer := TransferBytes(m, afterTransfer);
    var manager := ManagerBytes(m, transfer, afterManager);
    TransferFields(m, afterTransfer);
    ManagerFields(m, transfer, afterManager);
    PayloadFields(m, manager, trailing);
    SequenceOfId(manager);
    hide ToBE, Value, Width, TransferBytes, ManagerBytes, PayloadBytes, SequenceOf;
  }

  // ---- The readers agree ----

  lemma SliceOfSlice(b: seq<Byte>, from: nat, n: nat, at: nat, w: nat)
    requires w > 0 && at + w <= |Slice(b, from, n)|
    ensures from + at + w <= |b| && Slice(Slice(b, from, n), at, w) == Slice(b, from + at, w)
  {
    var outer := Slice(b, from, n);
    assert from < |b| && |outer| == if from + n <= |b| then n else |b| - from;
    var inner, fixed := outer[at..at + w], b[from + at..from + at + w];
    forall k | 0 <= k < w ensures inner[k] == fixed[k] {
      assert outer[at + k] == b[from + at + k];
    }
  }

  /** The fields a reader finds at fixed offsets are where the nested lengths put them. */
  lemma NestedIsFixed(b: seq<Byte>, at: nat, w: nat)
    requires IsTransfer(b) && w > 0 && at + w <= |TransferOf(ManagerOf(b))|
    ensures 136 + at + w <= |b| && Slice(TransferOf(ManagerOf(b)), at, w) == Slice(b, 136 + at, w)
  {
    hide Value;
    var manager := ManagerOf(b);
    var n := UintAt(manager, 64, 2);
    SliceOfSlice(manager, 66, n, at, w);
    SliceOfSlice(b, 70, UintAt(b, 68, 2), 66 + at, w);
  }

  /**
   * Whenever the parser returns a transfer, none of the fixed-offset readers throws for a short payload,
   * and each agrees with it.
   */
  lemma ReadersAgree(b: seq<Byte>, sourceChainId: int, keccak: seq<Byte> -> seq<Byte>, t: NttTransfer)
    requires Parsed(b, sourceChainId, keccak) == Ok(Some(t))
    ensures IsNttTransfer(b)
    ensures SettlementSequence(b).Ok? && (t.sequence.Some? ==> SettlementSequence(b) == Ok(t.sequence.value))
    ensures forall d: nat :: SettlementAmount(b, d) ==
                             if t.decimals > d then Err(TooPrecise(t.decimals))
                             else Ok(t.amount * Power10(d - t.decimals))
    ensures |RecipientManager(b)| == 32 && t.recipientManager == RecipientManager(b)[12..]
  {
    hide Value, Power10;
    NestedIsFixed(b, 4, 1);
    NestedIsFixed(b, 5, 8);
    SliceOfSlice(b, 70, UintAt(b, 68, 2), 24, 8);
    var inner := TransferOf(ManagerOf(b));
    assert inner[4] == Slice(inner, 4, 1)[0] == b[140];
  }

  /** A transfer is for a manager when the parser reads that address and its padding is zero. */
  lemma ForManagerIff(b: seq<Byte>, sourceChainId: int, keccak: seq<Byte> -> seq<Byte>, t: NttTransfer,
      manager: seq<Byte>)
    requires Parsed(b, sourceChainId, keccak) == Ok(Some(t)) && |manager| == 20
    ensures IsForManager(b, manager) <==>
      t.recipientManager == manager && Slice(b, 36, 12) == Zeros(12)
  {
    var wire := RecipientManager(b);
    ReadersAgree(b, sourceChainId, keccak, t);
    assert wire == wire[..12] + wire[12..];
    assert wire[..12] == Slice(b, 36, 12);
  }

  // ---- What is read was laid out, unless it was cut short ----

  /** Both declared lengths are covered by the bytes there are. */
  predicate Whole(b: seq<Byte>)
    requires IsTransfer(b)
  {
    |ManagerOf(b)| == UintAt(b, 68, 2) && |TransferOf(ManagerOf(b))| == UintAt(ManagerOf(b), 64, 2)
  }

  function MessageOf(b: seq<Byte>): Message
    requires IsTransfer(b)
  {
    var manager := ManagerOf(b);
    var inner := TransferOf(manager);
    Message(Slice(b, 4, 32), Slice(b, 36, 32), Slice(manager, 0, 32), Slice(manager, 32, 32),
      inner[4], UintAt(inner, 5, 8), Slice(inner, 13, 32), Slice(inner, 45, 32), UintAt(inner, 77, 2))
  }

  /** The payload written anew from what the parser found in it, what it skips kept as it was. */
  function Rebuilt(b: seq<Byte>): seq<Byte>
    requires IsTransfer(b)
  {
    var manager := ManagerOf(b);
    var inner := TransferOf(manager);
    var m := MessageOf(b);
    PayloadBytes(m, ManagerBytes(m, TransferBytes(m, inner[79..]), manager[66 + |inner|..]), b[70 + |manager|..])
  }

  lemma TransferBack(b: seq<Byte>)
    requires IsTransfer(b)
    ensures var inner := TransferOf(ManagerOf(b)); TransferBytes(MessageOf(b), inner[79..]) == inner
  {
    var inner := TransferOf(ManagerOf(b));
    hide Value, ToBE, ManagerOf, TransferOf;
    assert inner[0..] == inner;
    SplitAt(inner, 0, 4);
    SplitAt(inner, 4, 1);
    SplitAt(inner, 5, 8);
    SplitAt(inner, 13, 32);
    SplitAt(inner, 45, 32);
    SplitAt(inner, 77, 2);
    assert Slice(inner, 4, 1) == [inner[4]];
    ToBEValue(Slice(inner, 5, 8));
    ToBEValue(Slice(inner, 77, 2));
  }

  lemma ManagerBack(b: seq<Byte>)
    requires IsTransfer(b) && Whole(b)
    ensures
      var manager := ManagerOf(b);
      var inner := TransferOf(manager);
      && 66 + |inner| <= |manager|
      && ManagerBytes(MessageOf(b), inner, manager[66 + |inner|..]) == manager
  {
    var manager := ManagerOf(b);
    var inner := TransferOf(manager);
    hide Value, ToBE, ManagerOf;
    assert manager[0..] == manager;
    SplitAt(manager, 0, 32);
    SplitAt(manager, 32, 32);
    SplitAt(manager, 64, 2);
    SplitAt(manager, 66, |inner|);
    ToBEValue(Slice(manager, 64, 2));
  }

  lemma PayloadBack(b: seq<Byte>)
    requires IsTransfer(b) && Whole(b)
    ensures
      var manager := ManagerOf(b);
      && 70 + |manager| <= |b|
      && PayloadBytes(MessageOf(b), manager, b[70 + |manager|..]) == b
  {
    var manager := ManagerOf(b);
    hide Value, ToBE, TransferOf;
    assert b[0..] == b;
    SplitAt(b, 0, 4);
    SplitAt(b, 4, 32);
    SplitAt(b, 36, 32);
    SplitAt(b, 68, 2);
    SplitAt(b, 70, |manager|);
    ToBEValue(Slice(b, 68, 2));
  }

  /**
   * The parser loses nothing: a transfer is rebuilt byte for byte from what was read, exactly when
   * neither declared length runs past the end. One that does is still taken for a transfer.
   */
  lemma RebuiltIffWhole(b: seq<Byte>)
    requires IsTransfer(b)
    ensures Rebuilt(b) == b <==> Whole(b)
  {
    hide Value, ToBE, ManagerOf, TransferOf, TransferBytes, PayloadBytes;
    var manager := ManagerOf(b);
    var inner := TransferOf(manager);
    TransferBack(b);
    if Whole(b) {
      ManagerBack(b);
      PayloadBack(b);
    }
    if Rebuilt(b) == b {
      LengthsFit(b);
      var m, again := MessageOf(b), ManagerBytes(MessageOf(b), inner, manager[66 + |inner|..]);
      assert |again| == |manager|;
      PayloadFields(m, again, b[70 + |manager|..]);
      ManagerFields(m, inner, manager[66 + |inner|..]);
    }
  }

  /**
   * A transfer cut off anywhere from its 215th byte on is still taken for one, with the bytes it has left;
   * and a whole one stays whole exactly when the cut is behind the manager message.
   */
  lemma CutShortIsTransfer(b: seq<Byte>, n: nat)
    requires IsTransfer(b) && 215 <= n <= |b|
    ensures IsTransfer(b[..n])
    ensures ManagerOf(b[..n]) <= ManagerOf(b) && TransferOf(ManagerOf(b[..n])) <= TransferOf(ManagerOf(b))
    ensures Whole(b) ==> (Whole(b[..n]) <==> 70 + |ManagerOf(b)| <= n)
  {
    hide Value, ToBE;
    var cut := b[..n];
    SliceOfPrefix(b, cut, 0, 4);
    SliceOfPrefix(b, cut, 68, 2);
    SliceOfPrefix(b, cut, 70, UintAt(b, 68, 2));
    var manager, less := ManagerOf(b), ManagerOf(cut);
    SliceOfPrefix(manager, less, 64, 2);
    SliceOfPrefix(manager, less, 66, UintAt(manager, 64, 2));
    var inner, fewer := TransferOf(manager), TransferOf(less);
    SliceOfPrefix(inner, fewer, 0, 4);
  }

  /** So there is one that is not whole: a manager length of 65535 and 215 bytes in all. */
  lemma ShortIsTransfer(b: seq<Byte>)
    requires |b| == 215 && b[..4] == TRANSCEIVER_PREFIX && b[136..140] == NTT_PREFIX
    requires b[68..70] == [255, 255] && b[134..136] == [0, 79]
    ensures IsTransfer(b) && !Whole(b) && Rebuilt(b) != b
  {
    assert Value([255, 255], 256) == 65535 && Value([0, 79], 256) == 79 by {
      assert [255, 255][..1] == [255] && [0, 79][..1] == [0];
      assert Value([255], 256) == 255 && Value([0], 256) == 0;
    }
    assert Slice(b, 68, 2) == [255, 255] && ManagerOf(b) == b[70..];
    assert Slice(b[70..], 64, 2) == [0, 79] && TransferOf(b[70..]) == b[136..];
    RebuiltIffWhole(b);
  }

  lemma LengthsFit(b: seq<Byte>)
    requires IsTransfer(b)
    ensures |ManagerOf(b)| < Width(2) && |TransferOf(ManagerOf(b))| < Width(2) && MessageOf(b).WellFormed()
    ensures 70 + |ManagerOf(b)| <= |b| && 66 + |TransferOf(ManagerOf(b))| <= |ManagerOf(b)|
  {
    hide Value, ToBE;
    var inner := TransferOf(ManagerOf(b));
    ToBEValue(Slice(b, 68, 2));
    ToBEValue(Slice(ManagerOf(b), 64, 2));
    ToBEValue(Slice(inner, 5, 8));
    ToBEValue(Slice(inner, 77, 2));
  }
}
