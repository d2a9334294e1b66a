/**
 * What a drained reader's tables are: a function of the store, but for rows merged or pruned past the
 * reader. Chains may be drained in any interleaving, in any batches, through crashes, retries and rebuilds; the
 * tables come out the same.
 */
module Replay {
  import opened Wrappers
  import opened EventLog
  import opened Merge
  import opened Tables
  import opened ReaderProtocol

  /** What flows make of events: which ones they can apply, and the writes each leads to. */
  datatype Meaning = Meaning(schemas: Schemas, applicable: EventRow -> bool, writes: EventRow -> seq<Write>)

  /** Every leg keys on the primary key and neither its key nor its success depends on the tables. */
  ghost predicate Means(r: Reader, m: Meaning) {
    && (forall t, row ::
          r.apply(t, row) == if m.applicable(row) then Some(UpsertedAll(m.schemas, t, m.writes(row))) else None)
    && (forall t, w | r.merge(t, w).Some? :: r.merge(t, w) == Some(Upserted(m.schemas, t, w)))
  }

  /** The writes an event yields: none if it cannot be applied, or no leg makes anything of it. */
  function Yield(m: Meaning, row: EventRow): set<Write> {
    if m.applicable(row) then Elements(m.writes(row)) else {}
  }

  /** The reader has read every event of its chains. */
  ghost predicate Drained(r: Reader, s: State) {
    forall c | c in r.chains :: Seen(s, c) == |Log(s.store, c)|
  }

  /** The log holds the event, and as it stands there it yields what it yielded when it was read. */
  ghost predicate YieldsAsRead(m: Meaning, log: seq<EventRow>, row: EventRow) {
    exists q :: 0 <= q < |log| && SameEvent(row, log[q]) && Yield(m, row) == Yield(m, log[q])
  }

  /** Every committed event yields what it yielded when it was read, filled in since or not. */
  ghost predicate AsRead(m: Meaning, s: State) {
    forall row | row in s.committed :: YieldsAsRead(m, Log(s.store, row.chain), row)
  }

  /** Only events that yield nothing were read and not committed. */
  ghost predicate NothingMissed(m: Meaning, s: State) {
    forall c, q | 0 <= q < Seen(s, c) ::
      IsCommitted(s.committed, Log(s.store, c)[q]) || Yield(m, Log(s.store, c)[q]) == {}
  }

  /** A write some event of the reader's chains yields as it is stored. */
  ghost predicate StoredWrite(r: Reader, m: Meaning, store: Store, w: Write) {
    exists c, row :: c in r.chains && row in Log(store, c) && w in Yield(m, row)
  }

  /** A listing of the stored writes and of those merged past the reader, in any order, repeated or not. */
  ghost predicate Lists(r: Reader, m: Meaning, s: State, ws: seq<Write>) {
    forall w :: w in ws <==> StoredWrite(r, m, s.store, w) || w in MergesIn(s.changes)
  }

  /** The contributions to a row that the store and the merges lead to agree: their order is immaterial. */
  ghost predicate WritesAgree(r: Reader, m: Meaning, s: State, id: RowId) {
    forall ws: seq<Write> | Lists(r, m, s, ws) ::
      Agreeing(SchemaOf(m.schemas, id.flow), Contributions(Elements(ws), id))
  }

  /** The same was merged into a row past the reader, in whatever order and however often. */
  ghost predicate SameMerges(s: State, t: State, id: RowId) {
    Contributions(Elements(MergesIn(s.changes)), id) == Contributions(Elements(MergesIn(t.changes)), id)
  }

  function Writes(m: Meaning, change: Change): seq<Write> {
    match change
    case OfEvent(row) => m.writes(row)
    case OfMerge(w) => [w]
    case OfPrune(_) => []
  }

  /** The writes of a sequence of changes, one after the other. */
  function AllWrites(m: Meaning, changes: seq<Change>): seq<Write> {
    if changes == [] then []
    else
      var last := changes[|changes| - 1];
      AllWrites(m, changes[..|changes| - 1]) + Writes(m, last)
  }

  lemma {:induction false} InAllWrites(m: Meaning, changes: seq<Change>, w: Write)
    ensures w in AllWrites(m, changes) <==>
              w in MergesIn(changes) || exists row :: row in EventsIn(changes) && w in m.writes(row)
  {
    if changes != [] {
      var front, last := changes[..|changes| - 1], changes[|changes| - 1];
      InAllWrites(m, front, w);
      assert last.OfEvent? && w in m.writes(last.row) ==> last.row in EventsIn(changes);
      assert forall row | row in EventsIn(front) :: row in EventsIn(changes);
    }
  }

  /** A row that was not pruned is what the writes make of it. */
  lemma {:induction false} ChangedIsUpserted(r: Reader, m: Meaning, changes: seq<Change>, id: RowId)
    requires Means(r, m) && ChangeAll(r, map[], changes).Some? && id !in PrunedIn(changes)
    ensures SameAt(ChangeAll(r, map[], changes).value, UpsertedAll(m.schemas, map[], AllWrites(m, changes)), id)
  {
    if changes != [] {
      var front, last := changes[..|changes| - 1], changes[|changes| - 1];
      ChangedIsUpserted(r, m, front, id);
      var t, u := ChangeAll(r, map[], front).value, UpsertedAll(m.schemas, map[], AllWrites(m, front));
      match last
      case OfEvent(row) =>
        assert r.apply(t, row).Some?;
        UpsertedAllAppend(m.schemas, map[], AllWrites(m, front), m.writes(row));
        SameAtOnward(m.schemas, t, u, m.writes(row), id);
      case OfMerge(w) =>
        assert r.merge(t, w).Some?;
        assert AllWrites(m, changes)[..|AllWrites(m, changes)| - 1] == AllWrites(m, front);
      case OfPrune(ids) =>
        assert AllWrites(m, changes) == AllWrites(m, front) && id !in ids;
    }
  }

  /** Every event among changes that could be made was applicable. */
  lemma {:induction false} ChangedApplicable(r: Reader, m: Meaning, changes: seq<Change>)
    requires Means(r, m) && ChangeAll(r, map[], changes).Some?
    ensures forall row | row in EventsIn(changes) :: m.applicable(row)
  {
    if changes != [] {
      var front, last := changes[..|changes| - 1], changes[|changes| - 1];
      ChangedApplicable(r, m, front);
      assert last.OfEvent? ==> r.apply(ChangeAll(r, map[], front).value, last.row).Some?;
    }
  }

  /** Once drained, what changed the tables is every write stored events yield, and every row merged. */
  lemma CommittedIsStored(r: Reader, m: Meaning, s: State, w: Write)
    requires Inv(r, s) && Drained(r, s) && Means(r, m) && AsRead(m, s) && NothingMissed(m, s)
    ensures w in AllWrites(m, s.changes) <==> StoredWrite(r, m, s.store, w) || w in MergesIn(s.changes)
  {
    hide Position, ChangeAll, MergesIn, EventsIn;
    InAllWrites(m, s.changes, w);
    ChangedApplicable(r, m, s.changes);
    if row :| row in s.committed && w in m.writes(row) {
      CommittedRowStored(r, m, s, row, w);
    }
    if StoredWrite(r, m, s.store, w) {
      var c, row :| c in r.chains && row in Log(s.store, c) && w in Yield(m, row);
      var read := StoredRowCommitted(r, m, s, c, row, w);
    }
  }

  lemma CommittedRowStored(r: Reader, m: Meaning, s: State, row: EventRow, w: Write)
    requires OnlySeenCommitted(r, s) && AsRead(m, s) && row in s.committed && m.applicable(row) && w in m.writes(row)
    ensures StoredWrite(r, m, s.store, w)
  {
    var j :| 0 <= j < |s.committed| && s.committed[j] == row;
    assert SeenInLog(r, s, s.committed[j]);
    var log := Log(s.store, row.chain);
    var q :| 0 <= q < |log| && SameEvent(row, log[q]) && Yield(m, row) == Yield(m, log[q]);
    assert w in Yield(m, row) && log[q] in log;
  }

  lemma StoredRowCommitted(r: Reader, m: Meaning, s: State, c: string, row: EventRow, w: Write) returns (read: EventRow)
    requires ValidStore(s.store) && Drained(r, s) && AsRead(m, s) && NothingMissed(m, s)
    requires c in r.chains && row in Log(s.store, c) && w in Yield(m, row)
    ensures read in s.committed && w in m.writes(read)
  {
    var log := Log(s.store, c);
    var q :| 0 <= q < |log| && log[q] == row;
    var j :| 0 <= j < |s.committed| && SameEvent(s.committed[j], row);
    read := s.committed[j];
    var k :| 0 <= k < |log| && SameEvent(read, log[k]) && Yield(m, read) == Yield(m, log[k]);
    assert k == q;
  }

  /**
   * A row of a drained reader that was not pruned is what the stored writes and those merged past it make
   * of it, upserted in any order whatever, as long as the writes to it agree, every event committed yields
   * what it did when it was read, and only events that yield nothing were missed.
   */
  lemma DrainedTablesFromStore(r: Reader, m: Meaning, s: State, ws: seq<Write>, id: RowId)
    requires Inv(r, s) && Drained(r, s) && Means(r, m) && AsRead(m, s) && NothingMissed(m, s)
    requires Lists(r, m, s, ws) && WritesAgree(r, m, s, id) && id !in PrunedIn(s.changes)
    ensures SameAt(s.tables, UpsertedAll(m.schemas, map[], ws), id)
  {
    ChangedIsUpserted(r, m, s.changes, id);
    var vs := AllWrites(m, s.changes);
    forall w ensures w in Elements(vs) <==> w in Elements(ws) {
      CommittedIsStored(r, m, s, w);
    }
    assert Elements(vs) == Elements(ws);
    SameRow(m.schemas, vs, ws, id);
  }

  /**
   * Two drained states over the same store agree on every row neither had pruned and into which the same
   * was merged past them: whatever the interleaving of chains, the batch boundaries and the crashes on the
   * way, and whether or not a rebuild lies between them. The conditions are those of the single state, on
   * both sides.
   */
  lemma DrainIsConfluent(r: Reader, m: Meaning, a: State, b: State, id: RowId)
    requires Inv(r, a) && Drained(r, a) && AsRead(m, a) && NothingMissed(m, a) && id !in PrunedIn(a.changes)
    requires Inv(r, b) && Drained(r, b) && AsRead(m, b) && NothingMissed(m, b) && id !in PrunedIn(b.changes)
    requires Means(r, m) && a.store == b.store && SameMerges(a, b, id) && WritesAgree(r, m, a, id)
    ensures SameAt(a.tables, b.tables, id)
  {
    hide Inv, AsRead, NothingMissed, Drained, Means, StoredWrite, WritesAgree, SameMerges;
    var ws := WritesAreListed(r, m, a);
    var vs := WritesAreListed(r, m, b);
    SameListings(r, m, a, b, ws, id);
    DrainedTablesFromStore(r, m, a, ws, id);
    DrainedTablesFromStore(r, m, b, vs, id);
    SameRow(m.schemas, ws, vs, id);
  }

  /** The writes that made a drained reader's tables list what is stored and merged. */
  lemma WritesAreListed(r: Reader, m: Meaning, s: State) returns (ws: seq<Write>)
    requires Inv(r, s) && Drained(r, s) && Means(r, m) && AsRead(m, s) && NothingMissed(m, s)
    ensures Lists(r, m, s, ws)
  {
    hide Inv, AsRead, NothingMissed, Drained, Means, StoredWrite;
    ws := AllWrites(m, s.changes);
    forall w ensures w in ws <==> StoredWrite(r, m, s.store, w) || w in MergesIn(s.changes) {
      CommittedIsStored(r, m, s, w);
    }
  }

  /** Over the same store, and with the same merged into a row, all listings contribute the same to it. */
  lemma SameListings(r: Reader, m: Meaning, a: State, b: State, ws: seq<Write>, id: RowId)
    requires a.store == b.store && SameMerges(a, b, id) && Lists(r, m, a, ws) && WritesAgree(r, m, a, id)
    ensures forall vs: seq<Write> | Lists(r, m, b, vs) ::
              Contributions(Elements(vs), id) == Contributions(Elements(ws), id)
    ensures WritesAgree(r, m, b, id) && Agreeing(SchemaOf(m.schemas, id.flow), Contributions(Elements(ws), id))
  {
    hide Agreeing, StoredWrite;
    forall vs: seq<Write> | Lists(r, m, b, vs)
      ensures Contributions(Elements(vs), id) == Contributions(Elements(ws), id)
    {
      forall c ensures c in Contributions(Elements(vs), id) <==> c in Contributions(Elements(ws), id) {
        InContributions(vs, id, c);
        InContributions(ws, id, c);
        InContributions(MergesIn(a.changes), id, c);
        InContributions(MergesIn(b.changes), id, c);
      }
    }
  }

  lemma InContributions(ws: seq<Write>, id: RowId, c: Contribution)
    ensures c in Contributions(Elements(ws), id) <==> Write(id, c) in ws
  {
    assert Write(id, c) in ws ==> Write(id, c) in Elements(ws);
  }

  // ---------- Runs that meet the conditions ----------

  /** How far a chain has been read: what was seen, and the rows in memory. */
  function ReadUpTo(s: State, c: string): nat {
    Seen(s, c) + if !s.control.Idle? && s.control.chain == c then |s.control.rows| else 0
  }

  /** The step fills in the extrinsic of an event that has been read, and that changes what it yields. */
  predicate FillsRead(m: Meaning, s: State, step: Step) {
    && step.Ingest?
    && var log, e := Log(s.store, step.source), step.event;
    && var i := IndexOf(log, e);
    && EffectOf(log, e) == Filled
    && i < ReadUpTo(s, step.source)
    && Yield(m, log[i].(raw := log[i].raw.(extrinsic := e.extrinsic))) != Yield(m, log[i])
  }

  /** The step gives up on an event that would have yielded something. */
  predicate GivesUpWrongly(m: Meaning, s: State, step: Step) {
    GivesUp(s, step) && Yield(m, s.control.rows[0]) != {}
  }

  /** A rebuild starts over between step `i` and state `n`. */
  ghost predicate RebuiltSince(steps: seq<Step>, i: nat, n: nat) {
    exists j :: i < j < n <= |steps| && steps[j].Rebuild?
  }

  /**
   * Since the last rebuild no event was filled in to another yield after it was read, and none was given
   * up on that would have yielded something. A first attempt may fail for any reason if the second succeeds.
   */
  ghost predicate Clean(m: Meaning, states: seq<State>, steps: seq<Step>, n: nat)
    requires |states| == |steps| + 1 && n <= |steps|
  {
    forall i | 0 <= i < n && (FillsRead(m, states[i], steps[i]) || GivesUpWrongly(m, states[i], steps[i])) ::
      RebuiltSince(steps, i, n)
  }

  /** The rows in memory yield what they yield in the log. */
  ghost predicate MemoryAsRead(m: Meaning, s: State) {
    !s.control.Idle? ==>
      var log, p, rows := Log(s.store, s.control.chain), Seen(s, s.control.chain), s.control.rows;
      && p + |rows| <= |log|
      && forall k | 0 <= k < |rows| :: Yield(m, rows[k]) == Yield(m, log[p + k])
  }

  /** The event that failed for good yields nothing. */
  ghost predicate FailedForNothing(m: Meaning, s: State) {
    (s.control.Failed? || s.control.Parked?) && s.control.rows != [] ==> Yield(m, s.control.rows[0]) == {}
  }

  ghost predicate Unspoilt(m: Meaning, s: State) {
    AsRead(m, s) && MemoryAsRead(m, s) && NothingMissed(m, s) && FailedForNothing(m, s)
  }

  /** Committed events are among those seen, so what leaves those alone leaves them as read. */
  lemma CommittedIsSeen(r: Reader, m: Meaning, s: State, row: EventRow) returns (q: nat)
    requires Inv(r, s) && AsRead(m, s) && row in s.committed
    ensures q < Seen(s, row.chain) <= |Log(s.store, row.chain)|
    ensures SameEvent(row, Log(s.store, row.chain)[q]) && Yield(m, row) == Yield(m, Log(s.store, row.chain)[q])
  {
    hide Yield;
    var log := Log(s.store, row.chain);
    var j :| 0 <= j < |s.committed| && s.committed[j] == row;
    assert SeenInLog(r, s, s.committed[j]);
    q :| 0 <= q < |log| && SameEvent(row, log[q]) && Yield(m, row) == Yield(m, log[q]);
    CursorCuts(s, row.chain);
  }

  /** An insert that fills in nothing read to another yield leaves the yields of all that was read. */
  lemma IngestLeavesRead(r: Reader, m: Meaning, s: State, step: Step, c: string)
    requires Inv(r, s) && step.Ingest? && Enabled(r, s, step) && !FillsRead(m, s, step)
    ensures var t := After(r, s, step);
      && Seen(t, c) == Seen(s, c) && |Log(s.store, c)| <= |Log(t.store, c)|
      && forall q | 0 <= q < ReadUpTo(s, c) && q < |Log(s.store, c)| ::
           && SameEvent(Log(s.store, c)[q], Log(t.store, c)[q])
           && Yield(m, Log(t.store, c)[q]) == Yield(m, Log(s.store, c)[q])
  {
    hide Yield;
    IngestKeepsPosition(s, After(r, s, step), step, r, c);
  }

  /** What was read still is, as the same event, and yields the same. */
  ghost predicate ReadStays(m: Meaning, s: State, t: State) {
    forall c ::
      && Seen(t, c) == Seen(s, c) && |Log(s.store, c)| <= |Log(t.store, c)|
      && forall q | 0 <= q < ReadUpTo(s, c) && q < |Log(s.store, c)| ::
           && SameEvent(Log(s.store, c)[q], Log(t.store, c)[q])
           && Yield(m, Log(t.store, c)[q]) == Yield(m, Log(s.store, c)[q])
  }

  lemma IngestKeepsUnspoilt(r: Reader, m: Meaning, s: State, step: Step)
    requires Inv(r, s) && step.Ingest? && Enabled(r, s, step) && !FillsRead(m, s, step) && Unspoilt(m, s)
    ensures Unspoilt(m, After(r, s, step))
  {
    hide InsertedOne, Position, Inv, FillsRead, Yield, AsRead, NothingMissed;
    var t := After(r, s, step);
    assert ReadStays(m, s, t) by {
      forall c
        ensures Seen(t, c) == Seen(s, c) && |Log(s.store, c)| <= |Log(t.store, c)|
        ensures forall q | 0 <= q < ReadUpTo(s, c) && q < |Log(s.store, c)| ::
          && SameEvent(Log(s.store, c)[q], Log(t.store, c)[q])
          && Yield(m, Log(t.store, c)[q]) == Yield(m, Log(s.store, c)[q])
      {
        IngestLeavesRead(r, m, s, step, c);
      }
    }
    CommittedStays(r, m, s, t);
    MissedStays(m, s, t);
    assert s.control.Idle? || Seen(t, s.control.chain) == Seen(s, s.control.chain);
  }

  lemma CommittedStays(r: Reader, m: Meaning, s: State, t: State)
    requires Inv(r, s) && AsRead(m, s) && ReadStays(m, s, t) && t.committed == s.committed
    ensures AsRead(m, t)
  {
    hide Position, Inv, Yield;
    forall row | row in t.committed ensures YieldsAsRead(m, Log(t.store, row.chain), row) {
      var q := CommittedIsSeen(r, m, s, row);
      SameEventTransitive(row, Log(s.store, row.chain)[q], Log(t.store, row.chain)[q]);
    }
  }

  lemma MissedStays(m: Meaning, s: State, t: State)
    requires NothingMissed(m, s) && ReadStays(m, s, t) && t.committed == s.committed
    ensures NothingMissed(m, t)
  {
    hide Position, Yield, IsCommitted;
    forall c, q | 0 <= q < Seen(t, c)
      ensures IsCommitted(t.committed, Log(t.store, c)[q]) || Yield(m, Log(t.store, c)[q]) == {}
    {
      StillCommitted(s.committed, Log(s.store, c)[q], Log(t.store, c)[q]);
    }
  }

  lemma StillCommitted(committed: seq<EventRow>, a: EventRow, b: EventRow)
    requires SameEvent(a, b)
    ensures IsCommitted(committed, a) ==> IsCommitted(committed, b)
  {
    if IsCommitted(committed, a) {
      var j :| 0 <= j < |committed| && SameEvent(committed[j], a);
      SameEventTransitive(committed[j], a, b);
    }
  }

  /** Rows in memory are their chain's next ones, and yield what those do. */
  lemma RowsAsRead(r: Reader, m: Meaning, s: State, rows: seq<EventRow>)
    requires Inv(r, s) && MemoryAsRead(m, s) && !s.control.Idle? && rows != [] && rows <= s.control.rows
    ensures NextRows(s, s.control.chain, rows)
    ensures forall k | 0 <= k < |rows| ::
      && rows[k].chain == s.control.chain
      && SameEvent(rows[k], Log(s.store, s.control.chain)[Seen(s, s.control.chain) + k])
      && Yield(m, rows[k]) == Yield(m, Log(s.store, s.control.chain)[Seen(s, s.control.chain) + k])
  {
    hide Position, Yield;
    var c := s.control.chain;
    forall k | 0 <= k < |rows|
      ensures rows[k] == s.control.rows[k] && rows[k].chain == c
    {
      NextRowsUnseen(s, c, s.control.rows, k);
    }
  }

  /** Committing the next rows, which yield what is stored, leaves all as read and misses nothing. */
  lemma CommitKeepsUnspoilt(r: Reader, m: Meaning, s: State, rows: seq<EventRow>, control: Control)
    requires Inv(r, s) && Unspoilt(m, s) && !s.control.Idle? && rows != [] && rows <= s.control.rows
    requires ApplyAll(r, s.tables, rows).Some?
    ensures var t := Committing(r, s, s.control.chain, rows, control);
      && AsRead(m, t) && NothingMissed(m, t)
      && Seen(t, s.control.chain) == Seen(s, s.control.chain) + |rows|
  {
    hide Position, ApplyAll, ControlInv, IsCommitted, MemoryAsRead, FailedForNothing, Yield;
    var c := s.control.chain;
    var t := Committing(r, s, c, rows, control);
    RowsAsRead(r, m, s, rows);
    CommittingCursor(r, s, c, rows, control);
    AllAsRead(m, s, c, rows);
    forall d, q | 0 <= q < Seen(t, d)
      ensures IsCommitted(t.committed, Log(t.store, d)[q]) || Yield(m, Log(t.store, d)[q]) == {}
    {
      CommittedOrNothing(m, s, c, rows, d, q);
    }
  }

  lemma AllAsRead(m: Meaning, s: State, c: string, rows: seq<EventRow>)
    requires AsRead(m, s) && Seen(s, c) + |rows| <= |Log(s.store, c)|
    requires forall k | 0 <= k < |rows| ::
      && rows[k].chain == c
      && SameEvent(rows[k], Log(s.store, c)[Seen(s, c) + k])
      && Yield(m, rows[k]) == Yield(m, Log(s.store, c)[Seen(s, c) + k])
    ensures forall row | row in s.committed + rows :: YieldsAsRead(m, Log(s.store, row.chain), row)
  {
    hide Position, Yield;
    forall row | row in rows ensures YieldsAsRead(m, Log(s.store, row.chain), row) {
      var k :| 0 <= k < |rows| && rows[k] == row;
      assert SameEvent(row, Log(s.store, c)[Seen(s, c) + k]);
    }
  }

  lemma CommittedOrNothing(m: Meaning, s: State, c: string, rows: seq<EventRow>, d: string, q: nat)
    requires NothingMissed(m, s) && Seen(s, c) + |rows| <= |Log(s.store, c)|
    requires forall k | 0 <= k < |rows| :: SameEvent(rows[k], Log(s.store, c)[Seen(s, c) + k])
    requires q < Seen(s, d) + (if d == c then |rows| else 0)
    ensures q < |Log(s.store, d)|
    ensures IsCommitted(s.committed + rows, Log(s.store, d)[q]) || Yield(m, Log(s.store, d)[q]) == {}
  {
    hide Position, Yield;
    var row := Log(s.store, d)[q];
    if q >= Seen(s, d) {
      assert SameEvent(rows[q - Seen(s, d)], row) && IsCommitted(rows, row);
    }
    CommittedGrows(s.committed, rows, row);
  }

  lemma TakeKeepsUnspoilt(r: Reader, m: Meaning, s: State, step: Step)
    requires Inv(r, s) && step.Take? && Enabled(r, s, step) && Unspoilt(m, s)
    ensures Unspoilt(m, After(r, s, step))
  {
    hide TakeEvents, Position, ValidCursor, OnlySeenCommitted, NoneSkipped, TablesAreChanges, ControlInv;
    hide AsRead, NothingMissed, Yield;
    SameDiskSameEvents(m, s, After(r, s, step));
    var log, p := Log(s.store, step.of), Seen(s, step.of);
    var rows := TakeEvents(log, Cursor(s, step.of), BATCH);
    TakeIsNextSlice(log, Cursor(s, step.of), BATCH);
    assert forall k | 0 <= k < |rows| :: rows[k] == log[p..p + |rows|][k];
  }

  lemma StepOverKeepsUnspoilt(r: Reader, m: Meaning, s: State)
    requires Inv(r, s) && Enabled(r, s, StepOver) && Unspoilt(m, s)
    ensures Unspoilt(m, After(r, s, StepOver))
  {
    hide Position, ApplyAll, ValidCursor, IsCommitted, Yield;
    var t := After(r, s, StepOver);
    var c, rows := s.control.chain, s.control.rows;
    RowsAsRead(r, m, s, rows);
    CursorMoved(s, t, c, Seen(s, c));
    OtherCursors(s, t, c);
    forall d, q | 0 <= q < Seen(t, d)
      ensures IsCommitted(t.committed, Log(t.store, d)[q]) || Yield(m, Log(t.store, d)[q]) == {}
    {
      assert q >= Seen(s, d) ==> Yield(m, Log(t.store, d)[q]) == Yield(m, rows[0]);
    }
    RowsLeft(m, s, t);
  }

  lemma CommitRowKeepsUnspoilt(r: Reader, m: Meaning, s: State)
    requires Inv(r, s) && Enabled(r, s, CommitRow) && Unspoilt(m, s)
    ensures Unspoilt(m, After(r, s, CommitRow))
  {
    hide Position, Unspoilt, Yield;
    var c, rows := s.control.chain, s.control.rows;
    var one := [rows[0]];
    assert one[..0] == [] && ApplyAll(r, s.tables, one) == r.apply(s.tables, rows[0]);
    assert OfEvents(one) == [OfEvent(rows[0])];
    assert After(r, s, CommitRow) == Committing(r, s, c, one, NextRow(c, rows));
    CommitKeepsUnspoilt(r, m, s, one, NextRow(c, rows));
    RowsLeft(m, s, After(r, s, CommitRow));
  }

  lemma RowsLeft(m: Meaning, s: State, t: State)
    requires Unspoilt(m, s) && !s.control.Idle? && s.control.rows != []
    requires t.store == s.store && t.control == NextRow(s.control.chain, s.control.rows)
    requires Seen(t, s.control.chain) == Seen(s, s.control.chain) + 1
    requires AsRead(m, t) && NothingMissed(m, t)
    ensures Unspoilt(m, t)
  {
    hide Position, Yield, AsRead, NothingMissed;
    var log, p, rows := Log(s.store, s.control.chain), Seen(s, s.control.chain), s.control.rows;
    forall k | 0 <= k < |rows| - 1 ensures Yield(m, rows[1..][k]) == Yield(m, log[p + 1 + k]) {
      assert Yield(m, rows[k + 1]) == Yield(m, log[p + (k + 1)]);
    }
  }

  /** Every step keeps the conditions, but for a late fill-in that matters and a wrong giving up. */
  lemma StepKeepsUnspoilt(r: Reader, m: Meaning, s: State, step: Step)
    requires Inv(r, s) && Enabled(r, s, step) && Unspoilt(m, s)
    requires !FillsRead(m, s, step) && !GivesUpWrongly(m, s, step)
    ensures Unspoilt(m, After(r, s, step))
  {
    hide Unspoilt, FillsRead, GivesUpWrongly, Inv;
    match step
    case Ingest(_, _, _) => IngestKeepsUnspoilt(r, m, s, step);
    case Take(_) => TakeKeepsUnspoilt(r, m, s, step);
    case CommitBatch => CommitBatchKeepsUnspoilt(r, m, s);
    case CommitRow => CommitRowKeepsUnspoilt(r, m, s);
    case StepOver => StepOverKeepsUnspoilt(r, m, s);
    case Rebuild => RebuildIsUnspoilt(r, m, s);
    case _ => QuietKeepsUnspoilt(r, m, s, step);
  }

  lemma CommitBatchKeepsUnspoilt(r: Reader, m: Meaning, s: State)
    requires Inv(r, s) && Enabled(r, s, CommitBatch) && Unspoilt(m, s)
    ensures Unspoilt(m, After(r, s, CommitBatch))
  {
    hide Position, ApplyAll, Seen, Yield;
    CommitKeepsUnspoilt(r, m, s, s.control.rows, Idle);
  }

  lemma QuietKeepsUnspoilt(r: Reader, m: Meaning, s: State, step: Step)
    requires Inv(r, s) && Enabled(r, s, step) && Unspoilt(m, s) && !GivesUpWrongly(m, s, step)
    requires step.AskRebuild? || step.FailBatch? || step.FailRow? || step.Park? || step.Abandon?
             || step.MergeRow? || step.Prune?
    ensures Unspoilt(m, After(r, s, step))
  {
    hide AsRead, NothingMissed, Inv, Yield;
    SameDiskSameEvents(m, s, After(r, s, step));
  }

  lemma SameDiskSameEvents(m: Meaning, s: State, t: State)
    requires t.store == s.store && t.cursors == s.cursors && t.committed == s.committed
    ensures forall c :: Seen(t, c) == Seen(s, c)
    ensures AsRead(m, s) ==> AsRead(m, t)
    ensures NothingMissed(m, s) ==> NothingMissed(m, t)
  {
    hide Position, IsCommitted, Yield;
    assert forall c :: Seen(t, c) == Seen(s, c);
  }

  lemma RebuildIsUnspoilt(r: Reader, m: Meaning, s: State)
    requires Inv(r, s) && Enabled(r, s, Rebuild)
    ensures Unspoilt(m, After(r, s, Rebuild))
  {
    var t := After(r, s, Rebuild);
    forall c ensures Seen(t, c) == 0 {
      NothingSeenAtZero(t, c);
    }
  }

  lemma {:induction false} RunStaysUnspoilt(r: Reader, m: Meaning, states: seq<State>, steps: seq<Step>, n: nat)
    requires Run(r, states, steps) && Initial(states[0]) && n < |states| && Clean(m, states, steps, n)
    ensures Unspoilt(m, states[n])
  {
    if n == 0 {
      forall c ensures Seen(states[0], c) == 0 {
        NothingSeenAtZero(states[0], c);
      }
    } else {
      RunKeepsInv(r, states, steps, n - 1);
      if steps[n - 1].Rebuild? {
        RebuildIsUnspoilt(r, m, states[n - 1]);
      } else {
        CleanBefore(m, states, steps, n);
        RunStaysUnspoilt(r, m, states, steps, n - 1);
        StepKeepsUnspoilt(r, m, states[n - 1], steps[n - 1]);
      }
    }
  }

  lemma CleanBefore(m: Meaning, states: seq<State>, steps: seq<Step>, n: nat)
    requires |states| == |steps| + 1 && 0 < n <= |steps| && Clean(m, states, steps, n) && !steps[n - 1].Rebuild?
    ensures Clean(m, states, steps, n - 1)
    ensures !FillsRead(m, states[n - 1], steps[n - 1]) && !GivesUpWrongly(m, states[n - 1], steps[n - 1])
  {
    forall i | 0 <= i < n - 1 && (FillsRead(m, states[i], steps[i]) || GivesUpWrongly(m, states[i], steps[i]))
      ensures RebuiltSince(steps, i, n - 1)
    {
      var j :| i < j < n <= |steps| && steps[j].Rebuild?;
    }
  }

  /**
   * The replay theorem, row by row: two runs that have drained the same store agree on every row neither
   * had pruned, and into which the same was merged past them, since the last rebuild; if since then neither
   * had an event filled in to another yield after reading it, or gave up on one that would have yielded
   * something, and the writes to that row agree.
   */
  lemma SameStoreSameRow(
      r: Reader, m: Meaning,
      statesA: seq<State>, stepsA: seq<Step>, i: nat,
      statesB: seq<State>, stepsB: seq<Step>, j: nat, id: RowId)
    requires Run(r, statesA, stepsA) && Initial(statesA[0]) && i < |statesA| && Clean(m, statesA, stepsA, i)
    requires Run(r, statesB, stepsB) && Initial(statesB[0]) && j < |statesB| && Clean(m, statesB, stepsB, j)
    requires Drained(r, statesA[i]) && Drained(r, statesB[j]) && statesA[i].store == statesB[j].store
    requires id !in PrunedIn(statesA[i].changes) && id !in PrunedIn(statesB[j].changes)
    requires Means(r, m) && SameMerges(statesA[i], statesB[j], id) && WritesAgree(r, m, statesA[i], id)
    ensures SameAt(statesA[i].tables, statesB[j].tables, id)
  {
    RunStaysUnspoilt(r, m, statesA, stepsA, i);
    RunStaysUnspoilt(r, m, statesB, stepsB, j);
    RunKeepsInv(r, statesA, stepsA, i);
    RunKeepsInv(r, statesB, stepsB, j);
    hide Inv, Drained, Means, WritesAgree, SameMerges, AsRead, NothingMissed;
    DrainIsConfluent(r, m, statesA[i], statesB[j], id);
  }

  /** And the same tables where all their rows meet this: nothing pruned, the same merged, all writes agreeing. */
  lemma SameStoreSameTables(
      r: Reader, m: Meaning,
      statesA: seq<State>, stepsA: seq<Step>, i: nat,
      statesB: seq<State>, stepsB: seq<Step>, j: nat)
    requires Run(r, statesA, stepsA) && Initial(statesA[0]) && i < |statesA| && Clean(m, statesA, stepsA, i)
    requires Run(r, statesB, stepsB) && Initial(statesB[0]) && j < |statesB| && Clean(m, statesB, stepsB, j)
    requires Drained(r, statesA[i]) && Drained(r, statesB[j]) && statesA[i].store == statesB[j].store
    requires PrunedIn(statesA[i].changes) == PrunedIn(statesB[j].changes) == {}
    requires Means(r, m) && forall id: RowId ::
               SameMerges(statesA[i], statesB[j], id) && WritesAgree(r, m, statesA[i], id)
    ensures statesA[i].tables == statesB[j].tables
  {
    hide Run, Initial, Clean, Drained, Means, PrunedIn;
    forall id: RowId ensures SameAt(statesA[i].tables, statesB[j].tables, id) {
      assert SameMerges(statesA[i], statesB[j], id) && WritesAgree(r, m, statesA[i], id);
      SameStoreSameRow(r, m, statesA, stepsA, i, statesB, stepsB, j, id);
    }
    SameEverywhere(statesA[i].tables, statesB[j].tables);
  }
}
