/**
 * The shared event store: one append-only log per chain, numbered at insert. A duplicate is ignored,
 * except that it may fill in an extrinsic the first pass did not record.
 */
module EventLog {
  import opened Wrappers
  import Text

  /** One raw log, as ingest hands it over. */
  datatype RawEvent = RawEvent(
    txHash: string,
    logIndex: int,
    address: string,
    blockNumber: int,
    blockTimestamp: int,
    topics: seq<string>,
    data: string,
    sender: Option<string>,
    extrinsic: Option<string>)

  /** A stored event. `number` is the `seq` column, the watermark readers read by. */
  datatype EventRow = EventRow(number: int, chain: string, raw: RawEvent)

  type Store = map<string, seq<EventRow>>

  function Log(store: Store, chain: string): seq<EventRow> {
    if chain in store then store[chain] else []
  }

  /** How an event is written: address and sender in lower case. */
  function Normalized(e: RawEvent): RawEvent {
    e.(address := Text.Lower(e.address),
       sender := if e.sender.Some? then Some(Text.Lower(e.sender.value)) else None)
  }

  /** Two raw events with the same primary key within a chain. */
  predicate SameKey(a: RawEvent, b: RawEvent) {
    a.txHash == b.txHash && a.logIndex == b.logIndex
  }

  /** Where a log holds the event with this key, or its length. */
  function IndexOf(log: seq<EventRow>, e: RawEvent): (i: nat)
    ensures i <= |log|
    ensures i < |log| ==> SameKey(log[i].raw, e)
    ensures forall j | 0 <= j < i :: !SameKey(log[j].raw, e)
  {
    if log == [] then 0
    else if SameKey(log[0].raw, e) then 0
    else 1 + IndexOf(log[1..], e)
  }

  /** What inserting an event does to its chain's log. */
  datatype Effect = Added | Filled | Ignored

  function EffectOf(log: seq<EventRow>, e: RawEvent): Effect {
    var i := IndexOf(log, e);
    if i == |log| then Added
    else if log[i].raw.extrinsic.None? && e.extrinsic.Some? then Filled
    else Ignored
  }

  /** The log after `INSERT ... ON CONFLICT DO UPDATE SET extrinsic`. */
  function InsertedOne(log: seq<EventRow>, chain: string, e: RawEvent, number: int): seq<EventRow> {
    var i := IndexOf(log, e);
    match EffectOf(log, e)
    case Added => log + [EventRow(number, chain, Normalized(e))]
    case Filled => log[i := log[i].(raw := log[i].raw.(extrinsic := e.extrinsic))]
    case Ignored => log
  }

  /** The log after a batch, each insert taking the next number whether it adds a row or not. */
  function InsertedAll(log: seq<EventRow>, chain: string, es: seq<RawEvent>, numbers: seq<int>): seq<EventRow>
    requires |numbers| == |es|
  {
    if es == [] then log
    else
      var n := |es| - 1;
      InsertedOne(InsertedAll(log, chain, es[..n], numbers[..n]), chain, es[n], numbers[n])
  }

  /** How many inserts of a batch had the given effect. */
  function Count(log: seq<EventRow>, chain: string, es: seq<RawEvent>, numbers: seq<int>, effect: Effect): nat
    requires |numbers| == |es|
  {
    if es == [] then 0
    else
      var n := |es| - 1;
      var before := InsertedAll(log, chain, es[..n], numbers[..n]);
      Count(log, chain, es[..n], numbers[..n], effect) + if EffectOf(before, es[n]) == effect then 1 else 0
  }

  /** How many rows a batch's statements touched: those added and those filled in. */
  function Touched(log: seq<EventRow>, chain: string, es: seq<RawEvent>, numbers: seq<int>): nat
    requires |numbers| == |es|
  {
    Count(log, chain, es, numbers, Added) + Count(log, chain, es, numbers, Filled)
  }

  lemma BatchByOneMore(log: seq<EventRow>, chain: string, es: seq<RawEvent>, numbers: seq<int>, i: nat)
    requires |numbers| == |es| && i < |es|
    ensures var before := InsertedAll(log, chain, es[..i], numbers[..i]);
            && InsertedAll(log, chain, es[..i + 1], numbers[..i + 1]) == InsertedOne(before, chain, es[i], numbers[i])
            && Touched(log, chain, es[..i + 1], numbers[..i + 1]) ==
                 Touched(log, chain, es[..i], numbers[..i]) + if EffectOf(before, es[i]) == Ignored then 0 else 1
  {
    assert es[..i + 1][..i] == es[..i] && numbers[..i + 1][..i] == numbers[..i];
  }

  /** The stored form of an event: as handed over, but for the letter case of its address and sender. */
  ghost predicate StoredAs(e: RawEvent, stored: RawEvent) {
    && stored.txHash == e.txHash && stored.logIndex == e.logIndex
    && stored.blockNumber == e.blockNumber && stored.blockTimestamp == e.blockTimestamp
    && stored.topics == e.topics && stored.data == e.data && stored.extrinsic == e.extrinsic
    && LowerOf(e.address, stored.address)
    && (stored.sender.Some? <==> e.sender.Some?)
    && (e.sender.Some? ==> LowerOf(e.sender.value, stored.sender.value))
  }

  /** The same text with each of A to Z moved to its place among a to z. */
  ghost predicate LowerOf(text: string, lower: string) {
    && |lower| == |text|
    && forall i | 0 <= i < |text| ::
         lower[i] as int == text[i] as int + if 'A' as int <= text[i] as int <= 'Z' as int then 32 else 0
  }

  /**
   * One insert, field by field: an event whose transaction and log index no row has is appended as it is
   * stored; otherwise the row it names takes its extrinsic if it lacks one, and nothing else changes.
   */
  lemma InsertedRow(log: seq<EventRow>, chain: string, e: RawEvent, number: int)
    ensures var after := InsertedOne(log, chain, e, number);
      if forall i | 0 <= i < |log| :: log[i].raw.txHash != e.txHash || log[i].raw.logIndex != e.logIndex then
        && |after| == |log| + 1 && log <= after
        && after[|log|].number == number && after[|log|].chain == chain && StoredAs(e, after[|log|].raw)
      else
        && |after| == |log|
        && exists i | 0 <= i < |log| ::
             && log[i].raw.txHash == e.txHash && log[i].raw.logIndex == e.logIndex
             && (forall j | 0 <= j < |log| && j != i :: after[j] == log[j])
             && after[i] == log[i].(raw := log[i].raw.(extrinsic :=
                  if log[i].raw.extrinsic.Some? then log[i].raw.extrinsic else e.extrinsic))
  {
    var i := IndexOf(log, e);
    assert i < |log| ==> log[i].raw.txHash == e.txHash && log[i].raw.logIndex == e.logIndex;
  }

  // ---------- What every log keeps ----------

  ghost predicate Ascending(log: seq<EventRow>) {
    forall i, j | 0 <= i < j < |log| :: log[i].number < log[j].number
  }

  ghost predicate DistinctKeys(log: seq<EventRow>) {
    forall i, j | 0 <= i < j < |log| :: !SameKey(log[i].raw, log[j].raw)
  }

  /** Ascending positive numbers, distinct keys, and the chain's own rows only. */
  ghost predicate ValidLog(log: seq<EventRow>, chain: string) {
    && Ascending(log)
    && DistinctKeys(log)
    && (forall i | 0 <= i < |log| :: log[i].chain == chain && log[i].number > 0)
  }

  /** A number the sequence can still hand out to the chain's one writer. */
  ghost predicate Fresh(log: seq<EventRow>, number: int) {
    number > 0 && forall i | 0 <= i < |log| :: log[i].number < number
  }

  /** The same stored event, read before or after its extrinsic was filled in. */
  predicate SameEvent(earlier: EventRow, later: EventRow) {
    && earlier.number == later.number
    && earlier.chain == later.chain
    && earlier.raw.(extrinsic := None) == later.raw.(extrinsic := None)
    && (earlier.raw.extrinsic.Some? ==> later.raw.extrinsic == earlier.raw.extrinsic)
  }

  /** A log as it was earlier: a prefix, up to extrinsics filled in since. */
  ghost predicate Extends(earlier: seq<EventRow>, later: seq<EventRow>) {
    && |earlier| <= |later|
    && forall i | 0 <= i < |earlier| :: SameEvent(earlier[i], later[i])
  }

  /** An insert keeps the log valid and only ever extends it: no event moves, vanishes or changes. */
  lemma InsertExtends(log: seq<EventRow>, chain: string, e: RawEvent, number: int)
    requires ValidLog(log, chain) && Fresh(log, number)
    ensures ValidLog(InsertedOne(log, chain, e, number), chain)
    ensures Extends(log, InsertedOne(log, chain, e, number))
    ensures forall q | |log| <= q < |InsertedOne(log, chain, e, number)| ::
              InsertedOne(log, chain, e, number)[q].number == number
  {
    var i := IndexOf(log, e);
    var after := InsertedOne(log, chain, e, number);
    assert i < |log| ==> SameKey(after[i].raw, log[i].raw);
    assert forall j | 0 <= j < |log| && j != i :: after[j] == log[j];
  }

  lemma ExtendsTransitive(a: seq<EventRow>, b: seq<EventRow>, c: seq<EventRow>)
    requires Extends(a, b) && Extends(b, c)
    ensures Extends(a, c)
  {
    forall i | 0 <= i < |a| ensures SameEvent(a[i], c[i]) {
      assert SameEvent(a[i], b[i]) && SameEvent(b[i], c[i]);
    }
  }

  /** What a log holds of one key: nothing, a row without an extrinsic, or a row with one. */
  ghost predicate Settled(log: seq<EventRow>, e: RawEvent) {
    EffectOf(log, e) == Ignored
  }

  lemma SettledStays(log: seq<EventRow>, chain: string, e: RawEvent, d: RawEvent, number: int)
    requires Settled(log, e)
    ensures Settled(InsertedOne(log, chain, d, number), e)
  {
    var i := IndexOf(log, e);
    var after := InsertedOne(log, chain, d, number);
    assert SameKey(after[i].raw, e);
    assert forall j | 0 <= j < i :: after[j] == log[j] || SameKey(after[j].raw, log[j].raw);
    assert IndexOf(after, e) == i;
  }

  lemma InsertSettles(log: seq<EventRow>, chain: string, e: RawEvent, number: int)
    ensures Settled(InsertedOne(log, chain, e, number), e)
  {
    var i := IndexOf(log, e);
    var after := InsertedOne(log, chain, e, number);
    assert SameKey(after[i].raw, e);
    assert forall j | 0 <= j < i :: after[j] == log[j];
    assert IndexOf(after, e) == i;
  }

  lemma {:induction false} BatchSettles(log: seq<EventRow>, chain: string, es: seq<RawEvent>, numbers: seq<int>, k: nat)
    requires |numbers| == |es| && k < |es|
    ensures Settled(InsertedAll(log, chain, es, numbers), es[k])
  {
    var n := |es| - 1;
    var before := InsertedAll(log, chain, es[..n], numbers[..n]);
    if k == n {
      InsertSettles(before, chain, es[n], numbers[n]);
    } else {
      BatchSettles(log, chain, es[..n], numbers[..n], k);
      assert es[..n][k] == es[k];
      SettledStays(before, chain, es[k], es[n], numbers[n]);
    }
  }

  lemma {:induction false} SettledBatchIsIgnored(
      log: seq<EventRow>, chain: string, es: seq<RawEvent>, numbers: seq<int>)
    requires |numbers| == |es|
    requires forall k | 0 <= k < |es| :: Settled(log, es[k])
    ensures InsertedAll(log, chain, es, numbers) == log
    ensures Count(log, chain, es, numbers, Ignored) == |es|
  {
    if es != [] {
      var n := |es| - 1;
      assert forall k | 0 <= k < n :: es[..n][k] == es[k];
      SettledBatchIsIgnored(log, chain, es[..n], numbers[..n]);
    }
  }

  /** "A re-scan of the same range is free": writing a batch again changes nothing and counts nothing. */
  lemma RescanIsFree(log: seq<EventRow>, chain: string, es: seq<RawEvent>, numbers: seq<int>, again: seq<int>)
    requires |numbers| == |es| == |again|
    ensures var once := InsertedAll(log, chain, es, numbers);
            && InsertedAll(once, chain, es, again) == once
            && Count(once, chain, es, again, Ignored) == |es|
  {
    var once := InsertedAll(log, chain, es, numbers);
    forall k | 0 <= k < |es| ensures Settled(once, es[k]) {
      BatchSettles(log, chain, es, numbers, k);
    }
    SettledBatchIsIgnored(once, chain, es, again);
  }

  lemma {:induction false} CountsSum(log: seq<EventRow>, chain: string, es: seq<RawEvent>, numbers: seq<int>)
    requires |numbers| == |es|
    ensures Count(log, chain, es, numbers, Added) + Count(log, chain, es, numbers, Filled)
              + Count(log, chain, es, numbers, Ignored) == |es|
    ensures |InsertedAll(log, chain, es, numbers)| == |log| + Count(log, chain, es, numbers, Added)
  {
    if es != [] {
      var n := |es| - 1;
      CountsSum(log, chain, es[..n], numbers[..n]);
    }
  }

  // ---------- What the returned count counts ----------

  /**
   * The batch's event `i` brings an extrinsic to a row that lacks one: a stored row, or one an earlier
   * event of the batch adds, and no earlier event of the batch has brought it one.
   */
  ghost predicate BringsExtrinsic(log: seq<EventRow>, es: seq<RawEvent>, i: nat)
    requires i < |es|
  {
    && es[i].extrinsic.Some?
    && !(exists j :: 0 <= j < i && SameKey(es[j], es[i]) && es[j].extrinsic.Some?)
    && if Holds(log, es[i]) then log[IndexOf(log, es[i])].raw.extrinsic.None?
       else exists j :: 0 <= j < i && SameKey(es[j], es[i])
  }

  predicate Holds(log: seq<EventRow>, e: RawEvent) {
    IndexOf(log, e) < |log|
  }

  /** What one insert does to the row of a key. */
  lemma InsertAt(log: seq<EventRow>, chain: string, d: RawEvent, number: int, e: RawEvent)
    ensures var after := InsertedOne(log, chain, d, number);
      && (Holds(after, e) <==> Holds(log, e) || SameKey(d, e))
      && (Holds(after, e) ==>
            (after[IndexOf(after, e)].raw.extrinsic.Some? <==>
               || (Holds(log, e) && log[IndexOf(log, e)].raw.extrinsic.Some?)
               || (SameKey(d, e) && d.extrinsic.Some?)))
  {
    var i, k := IndexOf(log, d), IndexOf(log, e);
    var after := InsertedOne(log, chain, d, number);
    assert forall j | 0 <= j < |log| :: SameKey(after[j].raw, log[j].raw);
    if k < |log| {
      assert IndexOf(after, e) == k;
    } else if |after| > |log| {
      assert forall j | 0 <= j < |log| :: !SameKey(after[j].raw, e);
      assert SameKey(after[|log|].raw, d);
      assert SameKey(d, e) ==> SameKey(after[|log|].raw, e);
      assert SameKey(after[|log|].raw, e) ==> IndexOf(after, e) == |log|;
    }
  }

  /** After part of a batch: the row is there, with an extrinsic, if it was, or if an event brought either. */
  lemma {:induction false} BatchAt(log: seq<EventRow>, chain: string, es: seq<RawEvent>, numbers: seq<int>, e: RawEvent)
    requires |numbers| == |es|
    ensures var after := InsertedAll(log, chain, es, numbers);
      && (Holds(after, e) <==> Holds(log, e) || exists j :: 0 <= j < |es| && SameKey(es[j], e))
      && (Holds(after, e) ==>
            (after[IndexOf(after, e)].raw.extrinsic.Some? <==>
               || (Holds(log, e) && log[IndexOf(log, e)].raw.extrinsic.Some?)
               || exists j :: 0 <= j < |es| && SameKey(es[j], e) && es[j].extrinsic.Some?))
  {
    hide IndexOf, InsertedOne;
    if es != [] {
      var n := |es| - 1;
      BatchAt(log, chain, es[..n], numbers[..n], e);
      InsertAt(InsertedAll(log, chain, es[..n], numbers[..n]), chain, es[n], numbers[n], e);
      assert forall j | 0 <= j < n :: es[..n][j] == es[j];
    }
  }

  /** Event `i` of a batch fills in a row exactly when it brings an extrinsic to one that lacks it. */
  lemma FilledIffBrings(log: seq<EventRow>, chain: string, es: seq<RawEvent>, numbers: seq<int>, i: nat)
    requires |numbers| == |es| && i < |es|
    ensures EffectOf(InsertedAll(log, chain, es[..i], numbers[..i]), es[i]) == Filled <==> BringsExtrinsic(log, es, i)
  {
    hide IndexOf, InsertedAll;
    BatchAt(log, chain, es[..i], numbers[..i], es[i]);
    assert forall j | 0 <= j < i :: es[..i][j] == es[j];
  }

  lemma {:induction false} CountFilled(log: seq<EventRow>, chain: string, es: seq<RawEvent>, numbers: seq<int>)
    requires |numbers| == |es|
    ensures Count(log, chain, es, numbers, Filled) == 0 <==> forall i | 0 <= i < |es| :: !BringsExtrinsic(log, es, i)
  {
    hide InsertedAll, EffectOf;
    if es != [] {
      var n := |es| - 1;
      CountFilled(log, chain, es[..n], numbers[..n]);
      FilledIffBrings(log, chain, es, numbers, n);
      forall i | 0 <= i < n ensures BringsExtrinsic(log, es[..n], i) == BringsExtrinsic(log, es, i) {
        assert es[..n][i] == es[i] && forall j | 0 <= j < i :: es[..n][j] == es[j];
      }
    }
  }

  /**
   * The count of a batch is at least the rows the log gained, and equals it if and only if no event brings
   * an extrinsic to a row, stored or of the batch, that lacks one.
   */
  lemma TouchedIsGrowthIff(log: seq<EventRow>, chain: string, es: seq<RawEvent>, numbers: seq<int>)
    requires |numbers| == |es|
    ensures var touched, growth := Touched(log, chain, es, numbers), |InsertedAll(log, chain, es, numbers)| - |log|;
      && touched >= growth
      && (touched == growth <==> forall i | 0 <= i < |es| :: !BringsExtrinsic(log, es, i))
  {
    CountsSum(log, chain, es, numbers);
    CountFilled(log, chain, es, numbers);
  }

  /** A batch that counts two rows and adds one: an event, and again with its extrinsic. */
  lemma CountExceedsGrowth(chain: string, e: RawEvent, extrinsic: string)
    requires e.extrinsic.None?
    ensures var es := [e, e.(extrinsic := Some(extrinsic))];
      Touched([], chain, es, [1, 2]) == 2 && |InsertedAll([], chain, es, [1, 2])| == 1
  {
    var es := [e, e.(extrinsic := Some(extrinsic))];
    BatchByOneMore([], chain, es, [1, 2], 0);
    BatchByOneMore([], chain, es, [1, 2], 1);
    assert es[..0] == [] && es[..2] == es && [1, 2][..2] == [1, 2];
    assert es[..1] == [e] && [1, 2][..1] == [1];
  }

  // ---------- Reading by watermark ----------

  /** `WHERE seq > after ORDER BY seq`. */
  function Unseen(log: seq<EventRow>, after: int): seq<EventRow> {
    if log == [] then []
    else if log[0].number > after then [log[0]] + Unseen(log[1..], after)
    else Unseen(log[1..], after)
  }

  /** `Unseen` with a LIMIT. */
  function TakeEvents(log: seq<EventRow>, after: int, limit: nat): seq<EventRow> {
    var rows := Unseen(log, after);
    if |rows| <= limit then rows else rows[..limit]
  }

  /** How many rows of a log lie at or below a watermark. */
  function Position(log: seq<EventRow>, after: int): (p: nat)
    ensures p <= |log|
  {
    if log == [] then 0
    else if log[|log| - 1].number <= after then |log|
    else Position(log[..|log| - 1], after)
  }

  /** In an ascending log the watermark cuts exactly: seen below the position, unseen from it on. */
  lemma {:induction false} PositionCuts(log: seq<EventRow>, after: int)
    requires Ascending(log)
    ensures forall i | 0 <= i < Position(log, after) :: log[i].number <= after
    ensures forall i | Position(log, after) <= i < |log| :: log[i].number > after
  {
    if log != [] && log[|log| - 1].number > after {
      var front := log[..|log| - 1];
      PositionCuts(front, after);
      assert forall i | 0 <= i < |front| :: front[i] == log[i];
    }
  }

  lemma PositionUnique(log: seq<EventRow>, after: int, p: nat)
    requires Ascending(log) && p <= |log|
    requires p > 0 ==> log[p - 1].number <= after
    requires p < |log| ==> log[p].number > after
    ensures Position(log, after) == p
  {
    PositionCuts(log, after);
  }

  lemma {:induction false} UnseenFrom(log: seq<EventRow>, after: int, p: nat)
    requires p <= |log|
    requires forall i | 0 <= i < p :: log[i].number <= after
    requires forall i | p <= i < |log| :: log[i].number > after
    ensures Unseen(log, after) == log[p..]
  {
    if log != [] {
      UnseenFrom(log[1..], after, if p == 0 then 0 else p - 1);
      assert p > 0 ==> log[1..][p - 1..] == log[p..];
    }
  }

  /** A reader is handed the rows straight above its watermark, in order, at most `limit` of them. */
  lemma TakeIsNextSlice(log: seq<EventRow>, after: int, limit: nat)
    requires Ascending(log)
    ensures var p := Position(log, after);
            TakeEvents(log, after, limit) == log[p..if |log| - p <= limit then |log| else p + limit]
  {
    PositionCuts(log, after);
    UnseenFrom(log, after, Position(log, after));
  }
}
