/**
 * The reader of the event store as a state machine whose steps are the database transactions: what
 * is on disk between any two of them, whatever fails and wherever the process dies.
 */
module ReaderProtocol {
  import opened Wrappers
  import opened EventLog
  import opened Merge
  import opened Tables

  const BATCH: nat := 500
  const ROW_ATTEMPTS: nat := 2

  /** A stored event's identity for one reader. */
  datatype Ref = Ref(chain: string, number: int)

  /**
   * What a reader is: the chains it drains, what one event does to its tables, if it can, and what a row
   * merged by someone else does to them.
   */
  datatype Reader = Reader(
    chains: set<string>,
    apply: (Tables, EventRow) -> Option<Tables>,
    merge: (Tables, Write) -> Option<Tables>)

  /** What changes a reader's tables: one of its events, a row that a poller merges past it, or a pruning. */
  datatype Change = OfEvent(row: EventRow) | OfMerge(write: Write) | OfPrune(ids: set<RowId>)

  /** Where the reader's process stands between two transactions, with the rows it holds in memory. */
  datatype Control =
    | Idle
    | Batch(chain: string, rows: seq<EventRow>)
    | EachRow(chain: string, rows: seq<EventRow>, attempt: nat)
    | Failed(chain: string, rows: seq<EventRow>)
    | Parked(chain: string, rows: seq<EventRow>)

  /**
   * The database and the reader. `committed` records the events of committed transactions in order, and
   * `changes` those events and what was merged or pruned past the reader, in order.
   */
  datatype State = State(
    store: Store,
    cursors: map<string, int>,
    dead: set<Ref>,
    tables: Tables,
    rebuildAsked: bool,
    committed: seq<EventRow>,
    changes: seq<Change>,
    control: Control)

  function Cursor(s: State, chain: string): int {
    if chain in s.cursors then s.cursors[chain] else 0
  }

  function Seen(s: State, chain: string): nat {
    Position(Log(s.store, chain), Cursor(s, chain))
  }

  function RefOf(row: EventRow): Ref {
    Ref(row.chain, row.number)
  }

  /** The tables after a sequence of events, or None when one of them cannot be applied. */
  function ApplyAll(r: Reader, t: Tables, rows: seq<EventRow>): Option<Tables> {
    if rows == [] then Some(t)
    else
      var before := ApplyAll(r, t, rows[..|rows| - 1]);
      if before.None? then None else r.apply(before.value, rows[|rows| - 1])
  }

  lemma ApplyOneMore(r: Reader, t: Tables, rows: seq<EventRow>, i: nat)
    requires i < |rows| && ApplyAll(r, t, rows[..i]).Some?
    ensures ApplyAll(r, t, rows[..i + 1]) == r.apply(ApplyAll(r, t, rows[..i]).value, rows[i])
  {
    assert rows[..i + 1][..i] == rows[..i];
  }

  /** The tables after a sequence of changes, or None when one of them cannot be made. */
  function ChangeAll(r: Reader, t: Tables, changes: seq<Change>): Option<Tables> {
    if changes == [] then Some(t)
    else
      match ChangeAll(r, t, changes[..|changes| - 1])
      case None => None
      case Some(before) =>
        match changes[|changes| - 1]
        case OfEvent(row) => r.apply(before, row)
        case OfMerge(w) => r.merge(before, w)
        case OfPrune(ids) => Some(before - ids)
  }

  function EventsIn(changes: seq<Change>): seq<EventRow> {
    if changes == [] then []
    else
      var last := changes[|changes| - 1];
      EventsIn(changes[..|changes| - 1]) + if last.OfEvent? then [last.row] else []
  }

  function MergesIn(changes: seq<Change>): seq<Write> {
    if changes == [] then []
    else
      var last := changes[|changes| - 1];
      MergesIn(changes[..|changes| - 1]) + if last.OfMerge? then [last.write] else []
  }

  function PrunedIn(changes: seq<Change>): set<RowId> {
    if changes == [] then {}
    else
      var last := changes[|changes| - 1];
      PrunedIn(changes[..|changes| - 1]) + if last.OfPrune? then last.ids else {}
  }

  /** The changes a transaction that applies `rows` makes. */
  function OfEvents(rows: seq<EventRow>): seq<Change> {
    seq(|rows|, i requires 0 <= i < |rows| => OfEvent(rows[i]))
  }

  lemma OneMoreChange(r: Reader, t: Tables, changes: seq<Change>, c: Change)
    ensures ChangeAll(r, t, changes + [c]) ==
              match ChangeAll(r, t, changes)
              case None => None
              case Some(before) =>
                match c
                case OfEvent(row) => r.apply(before, row)
                case OfMerge(w) => r.merge(before, w)
                case OfPrune(ids) => Some(before - ids)
    ensures EventsIn(changes + [c]) == EventsIn(changes) + if c.OfEvent? then [c.row] else []
    ensures MergesIn(changes + [c]) == MergesIn(changes) + if c.OfMerge? then [c.write] else []
    ensures PrunedIn(changes + [c]) == PrunedIn(changes) + if c.OfPrune? then c.ids else {}
  {
    assert (changes + [c])[..|changes|] == changes;
  }

  /** A transaction's events, after any changes, do what they do to the tables it found. */
  lemma {:induction false} ChangeAllEvents(r: Reader, t: Tables, changes: seq<Change>, rows: seq<EventRow>)
    requires ChangeAll(r, t, changes).Some?
    ensures ChangeAll(r, t, changes + OfEvents(rows)) == ApplyAll(r, ChangeAll(r, t, changes).value, rows)
    ensures EventsIn(changes + OfEvents(rows)) == EventsIn(changes) + rows
    ensures MergesIn(changes + OfEvents(rows)) == MergesIn(changes)
    decreases |rows|
  {
    if rows == [] {
      assert changes + OfEvents(rows) == changes;
    } else {
      var n := |rows| - 1;
      assert changes + OfEvents(rows) == changes + OfEvents(rows[..n]) + [OfEvent(rows[n])];
      ChangeAllEvents(r, t, changes, rows[..n]);
      OneMoreChange(r, t, changes + OfEvents(rows[..n]), OfEvent(rows[n]));
      assert rows[..n] + [rows[n]] == rows;
    }
  }

  /** Changes that are events are those of the events among them. */
  lemma {:induction false} OnlyEvents(changes: seq<Change>)
    requires forall k | 0 <= k < |changes| :: changes[k].OfEvent?
    ensures changes == OfEvents(EventsIn(changes))
  {
    if changes != [] {
      OnlyEvents(changes[..|changes| - 1]);
    }
  }

  // ---------- Steps ----------

  datatype Step =
    | Ingest(source: string, event: RawEvent, number: int)
    | MergeRow(write: Write)
    | Prune(ids: set<RowId>)
    | AskRebuild
    | Rebuild
    | Take(of: string)
    | CommitBatch
    | FailBatch
    | CommitRow
    | FailRow
    | Park
    | StepOver
    | Abandon

  /** The rows left after the first: the next one of a row-by-row retry, or back to reading. */
  function NextRow(chain: string, rows: seq<EventRow>): Control
    requires rows != []
  {
    if |rows| == 1 then Idle else EachRow(chain, rows[1..], 0)
  }

  predicate Enabled(r: Reader, s: State, step: Step) {
    match step
    case Ingest(c, _, n) => n > 0 && forall row | row in Log(s.store, c) :: row.number < n
    case MergeRow(w) => r.merge(s.tables, w).Some?
    case Prune(_) => true
    case AskRebuild => true
    case Rebuild => s.control.Idle? && s.rebuildAsked
    case Take(c) => s.control.Idle? && c in r.chains
    case CommitBatch => s.control.Batch? && ApplyAll(r, s.tables, s.control.rows).Some?
    case FailBatch => s.control.Batch?
    case CommitRow => s.control.EachRow? && s.control.rows != [] && r.apply(s.tables, s.control.rows[0]).Some?
    case FailRow => s.control.EachRow? && s.control.rows != []
    case Park => s.control.Failed? && s.control.rows != []
    case StepOver => s.control.Parked? && s.control.rows != []
    case Abandon => true
  }

  function After(r: Reader, s: State, step: Step): State
    requires Enabled(r, s, step)
  {
    match step
    case Ingest(c, e, n) => s.(store := s.store[c := InsertedOne(Log(s.store, c), c, e, n)])
    case MergeRow(w) => s.(tables := r.merge(s.tables, w).value, changes := s.changes + [OfMerge(w)])
    case Prune(ids) => s.(tables := s.tables - ids, changes := s.changes + [OfPrune(ids)])
    case AskRebuild => s.(rebuildAsked := true)
    case Rebuild =>
      s.(tables := map[], cursors := map[], dead := {}, rebuildAsked := false, committed := [], changes := [])
    case Take(c) =>
      var rows := TakeEvents(Log(s.store, c), Cursor(s, c), BATCH);
      s.(control := if rows == [] then Idle else Batch(c, rows))
    case CommitBatch =>
      var c, rows := s.control.chain, s.control.rows;
      if rows == [] then s.(control := Idle)
      else
        s.(tables := ApplyAll(r, s.tables, rows).value,
           cursors := s.cursors[c := rows[|rows| - 1].number],
           committed := s.committed + rows,
           changes := s.changes + OfEvents(rows),
           control := Idle)
    case FailBatch =>
      s.(control := if s.control.rows == [] then Idle else EachRow(s.control.chain, s.control.rows, 0))
    case CommitRow =>
      var c, row := s.control.chain, s.control.rows[0];
      s.(tables := r.apply(s.tables, row).value,
         cursors := s.cursors[c := row.number],
         committed := s.committed + [row],
         changes := s.changes + [OfEvent(row)],
         control := NextRow(c, s.control.rows))
    case FailRow =>
      s.(control := if s.control.attempt + 1 < ROW_ATTEMPTS
                    then s.control.(attempt := s.control.attempt + 1)
                    else Failed(s.control.chain, s.control.rows))
    case Park =>
      s.(dead := s.dead + {RefOf(s.control.rows[0])}, control := Parked(s.control.chain, s.control.rows))
    case StepOver =>
      s.(cursors := s.cursors[s.control.chain := s.control.rows[0].number],
         control := NextRow(s.control.chain, s.control.rows))
    case Abandon => s.(control := Idle)
  }

  /** The step is the last attempt at a row, and fails. */
  predicate GivesUp(s: State, step: Step) {
    step.FailRow? && s.control.EachRow? && s.control.rows != [] && s.control.attempt + 1 >= ROW_ATTEMPTS
  }

  // ---------- Invariant ----------

  ghost predicate ValidStore(store: Store) {
    forall c | c in store :: ValidLog(store[c], c)
  }

  /** A cursor is where no event has been read, or at an event of its chain. */
  ghost predicate ValidCursor(s: State, c: string) {
    var log := Log(s.store, c);
    && Cursor(s, c) >= 0
    && (Cursor(s, c) > 0 ==> exists q :: 0 <= q < |log| && log[q].number == Cursor(s, c))
  }

  /** A row of a log, as some committed transaction or memory read it. */
  ghost predicate FromLog(log: seq<EventRow>, row: EventRow, q: nat) {
    q < |log| && SameEvent(row, log[q])
  }

  ghost predicate IsCommitted(committed: seq<EventRow>, row: EventRow) {
    exists j :: 0 <= j < |committed| && SameEvent(committed[j], row)
  }

  /** Nothing is committed but events of the reader's chains at or below their cursors. */
  ghost predicate OnlySeenCommitted(r: Reader, s: State) {
    forall j | 0 <= j < |s.committed| :: SeenInLog(r, s, s.committed[j])
  }

  ghost predicate SeenInLog(r: Reader, s: State, row: EventRow) {
    && row.chain in r.chains
    && row.number <= Cursor(s, row.chain)
    && exists q: nat :: FromLog(Log(s.store, row.chain), row, q)
  }

  /** Each chain's events are committed in log order, so none is committed twice. */
  ghost predicate InLogOrder(committed: seq<EventRow>) {
    forall i, j | 0 <= i < j < |committed| ::
      committed[i].chain == committed[j].chain ==> committed[i].number < committed[j].number
  }

  /** Every event at or below the cursor was committed or parked. */
  ghost predicate NoneSkipped(s: State, c: string) {
    forall q | 0 <= q < Seen(s, c) ::
      var row := Log(s.store, c)[q];
      RefOf(row) in s.dead || IsCommitted(s.committed, row)
  }

  /** What holds on disk between any two transactions. */
  ghost predicate DiskInv(r: Reader, s: State) {
    && ValidStore(s.store)
    && (forall c :: ValidCursor(s, c))
    && OnlySeenCommitted(r, s)
    && InLogOrder(s.committed)
    && (forall c :: NoneSkipped(s, c))
    && TablesAreChanges(r, s)
  }

  /** The tables are what the committed events, and merges and prunings in between, make of empty ones. */
  ghost predicate TablesAreChanges(r: Reader, s: State) {
    ChangeAll(r, map[], s.changes) == Some(s.tables) && EventsIn(s.changes) == s.committed
  }

  /** The rows in memory are the next ones of their chain, from the cursor on. */
  ghost predicate NextRows(s: State, c: string, rows: seq<EventRow>) {
    var log, p := Log(s.store, c), Seen(s, c);
    && rows != []
    && p + |rows| <= |log|
    && forall k | 0 <= k < |rows| :: SameEvent(rows[k], log[p + k])
  }

  ghost predicate ControlInv(r: Reader, s: State) {
    match s.control
    case Idle => true
    case Batch(c, rows) => c in r.chains && NextRows(s, c, rows)
    case EachRow(c, rows, a) => c in r.chains && NextRows(s, c, rows) && a < ROW_ATTEMPTS
    case Failed(c, rows) => c in r.chains && NextRows(s, c, rows)
    case Parked(c, rows) => c in r.chains && NextRows(s, c, rows) && RefOf(rows[0]) in s.dead
  }

  ghost predicate Inv(r: Reader, s: State) {
    DiskInv(r, s) && ControlInv(r, s)
  }

  /** The reader before it has read anything, over whatever ingest has stored. */
  ghost predicate Initial(s: State) {
    && ValidStore(s.store)
    && s.cursors == map[] && s.dead == {} && s.tables == map[] && s.committed == [] && s.changes == []
    && s.control.Idle?
  }

  // ---------- The cursor ----------

  lemma CursorCuts(s: State, c: string)
    requires ValidStore(s.store)
    ensures forall q | 0 <= q < Seen(s, c) :: Log(s.store, c)[q].number <= Cursor(s, c)
    ensures forall q | Seen(s, c) <= q < |Log(s.store, c)| :: Log(s.store, c)[q].number > Cursor(s, c)
  {
    PositionCuts(Log(s.store, c), Cursor(s, c));
  }

  /** Numbers start at one, so a cursor at zero has seen nothing. */
  lemma NothingSeenAtZero(s: State, c: string)
    requires ValidStore(s.store) && Cursor(s, c) == 0
    ensures Seen(s, c) == 0
  {
    PositionUnique(Log(s.store, c), 0, 0);
  }

  /** Moving a cursor to the event at `q` makes exactly the events up to `q` seen. */
  lemma CursorMoved(s: State, t: State, c: string, q: nat)
    requires ValidStore(s.store) && t.store == s.store
    requires q < |Log(s.store, c)| && Cursor(t, c) == Log(s.store, c)[q].number
    ensures Seen(t, c) == q + 1
    ensures ValidCursor(t, c)
  {
    PositionUnique(Log(s.store, c), Cursor(t, c), q + 1);
  }

  // ---------- Steps that commit ----------

  /** The state after committing the next `rows` of chain `c` in one transaction. */
  function Committing(r: Reader, s: State, c: string, rows: seq<EventRow>, control: Control): State
    requires rows != [] && ApplyAll(r, s.tables, rows).Some?
  {
    s.(tables := ApplyAll(r, s.tables, rows).value,
       cursors := s.cursors[c := rows[|rows| - 1].number],
       committed := s.committed + rows,
       changes := s.changes + OfEvents(rows),
       control := control)
  }

  lemma CommittingCursor(r: Reader, s: State, c: string, rows: seq<EventRow>, control: Control)
    requires ValidStore(s.store) && (forall d :: ValidCursor(s, d))
    requires NextRows(s, c, rows) && ApplyAll(r, s.tables, rows).Some?
    ensures var t := Committing(r, s, c, rows, control);
            && Seen(t, c) == Seen(s, c) + |rows|
            && (forall d :: ValidCursor(t, d))
            && (forall d | d != c :: Seen(t, d) == Seen(s, d))
            && Cursor(s, c) < Cursor(t, c)
  {
    var t := Committing(r, s, c, rows, control);
    var last := |rows| - 1;
    NextRowsUnseen(s, c, rows, last);
    assert SameEvent(rows[last], Log(s.store, c)[Seen(s, c) + last]);
    CursorMoved(s, t, c, Seen(s, c) + last);
    OtherCursors(s, t, c);
  }

  /** A chain's cursor does not bear on the others. */
  lemma OtherCursors(s: State, t: State, c: string)
    requires t.store == s.store && forall d | d != c :: Cursor(t, d) == Cursor(s, d)
    ensures forall d | d != c :: Seen(t, d) == Seen(s, d)
    ensures forall d | d != c && ValidCursor(s, d) :: ValidCursor(t, d)
  {
  }

  lemma CommittingOnlySeen(r: Reader, s: State, c: string, rows: seq<EventRow>, control: Control)
    requires ValidStore(s.store) && (forall d :: ValidCursor(s, d)) && OnlySeenCommitted(r, s)
    requires c in r.chains && NextRows(s, c, rows) && ApplyAll(r, s.tables, rows).Some?
    ensures OnlySeenCommitted(r, Committing(r, s, c, rows, control))
  {
    var t := Committing(r, s, c, rows, control);
    CommittingCursor(r, s, c, rows, control);
    forall row | row in s.committed ensures SeenInLog(r, t, row) {
      StillSeen(r, s, t, row);
    }
    forall k | 0 <= k < |rows| ensures SeenInLog(r, t, rows[k]) {
      CommittedRowSeen(r, s, c, rows, control, k);
    }
  }

  /** An event in the log stays at or below its cursor as cursors rise. */
  lemma StillSeen(r: Reader, s: State, t: State, row: EventRow)
    requires SeenInLog(r, s, row) && t.store == s.store && Cursor(s, row.chain) <= Cursor(t, row.chain)
    ensures SeenInLog(r, t, row)
  {
  }

  lemma CommittedRowSeen(r: Reader, s: State, c: string, rows: seq<EventRow>, control: Control, k: nat)
    requires ValidStore(s.store) && c in r.chains && NextRows(s, c, rows) && ApplyAll(r, s.tables, rows).Some?
    requires k < |rows|
    ensures SeenInLog(r, Committing(r, s, c, rows, control), rows[k])
  {
    NextRowsUnseen(s, c, rows, k);
    if k < |rows| - 1 {
      NextRowsInOrder(s, c, rows, k, |rows| - 1);
    }
    assert FromLog(Log(s.store, c), rows[k], Seen(s, c) + k);
  }

  /** Consecutive rows of a log are in its order. */
  lemma NextRowsInOrder(s: State, c: string, rows: seq<EventRow>, i: nat, j: nat)
    requires ValidStore(s.store) && NextRows(s, c, rows) && i < j < |rows|
    ensures Cursor(s, c) < rows[i].number < rows[j].number
  {
    var log, p := Log(s.store, c), Seen(s, c);
    CursorCuts(s, c);
    assert SameEvent(rows[i], log[p + i]) && SameEvent(rows[j], log[p + j]);
  }

  lemma NextRowsUnseen(s: State, c: string, rows: seq<EventRow>, i: nat)
    requires ValidStore(s.store) && NextRows(s, c, rows) && i < |rows|
    ensures rows[i].chain == c && Cursor(s, c) < rows[i].number
  {
    CursorCuts(s, c);
    assert SameEvent(rows[i], Log(s.store, c)[Seen(s, c) + i]);
  }

  lemma CommittingInOrder(r: Reader, s: State, c: string, rows: seq<EventRow>)
    requires ValidStore(s.store) && OnlySeenCommitted(r, s) && InLogOrder(s.committed) && NextRows(s, c, rows)
    ensures InLogOrder(s.committed + rows)
  {
    var all, n := s.committed + rows, |s.committed|;
    forall i, j | 0 <= i < j < |all| && all[i].chain == all[j].chain ensures all[i].number < all[j].number {
      if i >= n {
        NextRowsInOrder(s, c, rows, i - n, j - n);
      } else if j >= n {
        NextRowsUnseen(s, c, rows, j - n);
        assert SeenInLog(r, s, s.committed[i]);
      }
    }
  }

  lemma CommittedGrows(a: seq<EventRow>, b: seq<EventRow>, row: EventRow)
    ensures IsCommitted(a, row) ==> IsCommitted(a + b, row)
    ensures IsCommitted(b, row) ==> IsCommitted(a + b, row)
  {
    if IsCommitted(a, row) {
      var j :| 0 <= j < |a| && SameEvent(a[j], row);
      assert (a + b)[j] == a[j];
    }
    if IsCommitted(b, row) {
      var j :| 0 <= j < |b| && SameEvent(b[j], row);
      assert (a + b)[|a| + j] == b[j];
    }
  }

  lemma CommittingNoneSkipped(r: Reader, s: State, c: string, rows: seq<EventRow>, control: Control, d: string)
    requires DiskInv(r, s) && NextRows(s, c, rows) && ApplyAll(r, s.tables, rows).Some?
    ensures NoneSkipped(Committing(r, s, c, rows, control), d)
  {
    var t := Committing(r, s, c, rows, control);
    var p := Seen(s, c);
    CommittingCursor(r, s, c, rows, control);
    assert NoneSkipped(s, d);
    forall q | 0 <= q < Seen(t, d)
      ensures RefOf(Log(t.store, d)[q]) in t.dead || IsCommitted(t.committed, Log(t.store, d)[q])
    {
      var row := Log(s.store, d)[q];
      if d == c && q >= p {
        assert SameEvent(rows[q - p], row);
        assert IsCommitted(rows, row);
      } else {
        assert q < Seen(s, d);
      }
      CommittedGrows(s.committed, rows, row);
    }
  }

  lemma CommittingKeepsDisk(r: Reader, s: State, c: string, rows: seq<EventRow>, control: Control)
    requires DiskInv(r, s) && c in r.chains && NextRows(s, c, rows) && ApplyAll(r, s.tables, rows).Some?
    ensures DiskInv(r, Committing(r, s, c, rows, control))
  {
    CommittingCursor(r, s, c, rows, control);
    CommittingOnlySeen(r, s, c, rows, control);
    CommittingInOrder(r, s, c, rows);
    forall d ensures NoneSkipped(Committing(r, s, c, rows, control), d) {
      CommittingNoneSkipped(r, s, c, rows, control, d);
    }
    ChangeAllEvents(r, map[], s.changes, rows);
  }

  /** After the first of the rows in memory is accounted for, the rest are the next ones. */
  lemma RestAreNext(r: Reader, s: State, t: State, c: string, rows: seq<EventRow>)
    requires ValidStore(s.store) && NextRows(s, c, rows)
    requires t.store == s.store && Cursor(t, c) == rows[0].number
    ensures |rows| > 1 ==> NextRows(t, c, rows[1..])
  {
    var log, p := Log(s.store, c), Seen(s, c);
    assert SameEvent(rows[0], log[p]);
    CursorMoved(s, t, c, p);
    forall k | 0 <= k < |rows| - 1 ensures SameEvent(rows[1..][k], log[p + 1 + k]) {
      assert SameEvent(rows[k + 1], log[p + (k + 1)]);
    }
  }

  // ---------- The other steps ----------

  /** The invariant survives what only touches memory, requests and, by growing it, `dead`. */
  lemma SameDisk(r: Reader, s: State, t: State)
    requires DiskInv(r, s)
    requires t.store == s.store && t.cursors == s.cursors && t.committed == s.committed
    requires TablesAreChanges(r, t) && s.dead <= t.dead
    ensures DiskInv(r, t)
    ensures forall c, rows :: NextRows(s, c, rows) ==> NextRows(t, c, rows)
  {
    forall c ensures ValidCursor(t, c) && NoneSkipped(t, c) && Seen(t, c) == Seen(s, c) {
      assert ValidCursor(s, c) && NoneSkipped(s, c);
    }
  }

  lemma IngestExtends(r: Reader, s: State, step: Step, c: string)
    requires ValidStore(s.store) && step.Ingest? && Enabled(r, s, step)
    ensures ValidStore(After(r, s, step).store)
    ensures Extends(Log(s.store, c), Log(After(r, s, step).store, c))
    ensures forall q | |Log(s.store, c)| <= q < |Log(After(r, s, step).store, c)| ::
              c == step.source && Log(After(r, s, step).store, c)[q].number == step.number
  {
    var log, d := Log(s.store, step.source), step.source;
    InsertExtends(log, d, step.event, step.number);
    var after := After(r, s, step).store;
    assert Log(after, d) == InsertedOne(log, d, step.event, step.number);
    assert c != d ==> Log(after, c) == Log(s.store, c);
  }

  /** New events land above every cursor. */
  lemma IngestAboveCursor(r: Reader, s: State, step: Step)
    requires ValidStore(s.store) && step.Ingest? && Enabled(r, s, step) && ValidCursor(s, step.source)
    ensures Cursor(s, step.source) < step.number
  {
    if Cursor(s, step.source) > 0 {
      var log := Log(s.store, step.source);
      var q :| 0 <= q < |log| && log[q].number == Cursor(s, step.source);
      assert log[q] in log;
    }
  }

  lemma IngestKeepsPosition(s: State, t: State, step: Step, r: Reader, c: string)
    requires ValidStore(s.store) && (forall d :: ValidCursor(s, d))
    requires step.Ingest? && Enabled(r, s, step) && t == After(r, s, step)
    ensures ValidStore(t.store)
    ensures Extends(Log(s.store, c), Log(t.store, c))
    ensures Seen(t, c) == Seen(s, c)
    ensures ValidCursor(t, c)
  {
    IngestExtends(r, s, step, c);
    IngestAboveCursor(r, s, step);
    CursorCuts(s, c);
    var a, b, p := Log(s.store, c), Log(t.store, c), Seen(s, c);
    assert p > 0 ==> SameEvent(a[p - 1], b[p - 1]);
    assert p < |a| ==> SameEvent(a[p], b[p]);
    PositionUnique(b, Cursor(t, c), p);
    assert ValidCursor(s, c);
    if Cursor(s, c) > 0 {
      var q :| 0 <= q < |a| && a[q].number == Cursor(s, c);
      assert SameEvent(a[q], b[q]);
    }
  }

  lemma SameEventTransitive(a: EventRow, b: EventRow, c: EventRow)
    requires SameEvent(a, b) && SameEvent(b, c)
    ensures SameEvent(a, c)
  {
  }

  lemma IngestNoneSkipped(r: Reader, s: State, step: Step, c: string)
    requires DiskInv(r, s) && step.Ingest? && Enabled(r, s, step)
    ensures ValidCursor(After(r, s, step), c) && NoneSkipped(After(r, s, step), c)
  {
    var t := After(r, s, step);
    IngestKeepsPosition(s, t, step, r, c);
    assert NoneSkipped(s, c);
    forall q | 0 <= q < Seen(t, c)
      ensures RefOf(Log(t.store, c)[q]) in t.dead || IsCommitted(t.committed, Log(t.store, c)[q])
    {
      var a, b := Log(s.store, c)[q], Log(t.store, c)[q];
      assert SameEvent(a, b);
      if IsCommitted(s.committed, a) {
        var j :| 0 <= j < |s.committed| && SameEvent(s.committed[j], a);
        SameEventTransitive(s.committed[j], a, b);
      }
    }
  }

  lemma IngestOnlySeen(r: Reader, s: State, step: Step)
    requires DiskInv(r, s) && step.Ingest? && Enabled(r, s, step)
    ensures OnlySeenCommitted(r, After(r, s, step))
  {
    var t := After(r, s, step);
    forall j | 0 <= j < |t.committed|
      ensures exists q: nat :: FromLog(Log(t.store, t.committed[j].chain), t.committed[j], q)
    {
      var row := s.committed[j];
      var q: nat :| FromLog(Log(s.store, row.chain), row, q);
      IngestKeepsPosition(s, t, step, r, row.chain);
      SameEventTransitive(row, Log(s.store, row.chain)[q], Log(t.store, row.chain)[q]);
      assert FromLog(Log(t.store, row.chain), row, q);
    }
  }

  lemma IngestKeepsDisk(r: Reader, s: State, step: Step)
    requires DiskInv(r, s) && step.Ingest? && Enabled(r, s, step)
    ensures DiskInv(r, After(r, s, step))
  {
    IngestKeepsPosition(s, After(r, s, step), step, r, step.source);
    IngestOnlySeen(r, s, step);
    forall c ensures ValidCursor(After(r, s, step), c) && NoneSkipped(After(r, s, step), c) {
      IngestNoneSkipped(r, s, step, c);
    }
  }

  lemma IngestKeepsNextRows(r: Reader, s: State, step: Step, c: string, rows: seq<EventRow>)
    requires ValidStore(s.store) && (forall d :: ValidCursor(s, d))
    requires step.Ingest? && Enabled(r, s, step) && NextRows(s, c, rows)
    ensures NextRows(After(r, s, step), c, rows)
  {
    hide InsertedOne, Position;
    var t := After(r, s, step);
    IngestKeepsPosition(s, t, step, r, c);
    var a, b, p := Log(s.store, c), Log(t.store, c), Seen(s, c);
    forall k | 0 <= k < |rows| ensures SameEvent(rows[k], b[p + k]) {
      SameEventTransitive(rows[k], a[p + k], b[p + k]);
    }
  }

  lemma IngestKeepsControl(r: Reader, s: State, step: Step)
    requires Inv(r, s) && step.Ingest? && Enabled(r, s, step)
    ensures ControlInv(r, After(r, s, step))
  {
    if !s.control.Idle? {
      IngestKeepsNextRows(r, s, step, s.control.chain, s.control.rows);
    }
  }

  /** What a reader takes is the next slice of the log above its cursor. */
  lemma TakenAreNext(s: State, c: string)
    requires ValidStore(s.store)
    ensures var rows := TakeEvents(Log(s.store, c), Cursor(s, c), BATCH);
            && |rows| == (var unread := |Log(s.store, c)| - Seen(s, c); if unread <= 500 then unread else 500)
            && if Seen(s, c) == |Log(s.store, c)| then rows == [] else NextRows(s, c, rows)
  {
    hide TakeEvents, Position;
    var log, p := Log(s.store, c), Seen(s, c);
    var rows := TakeEvents(log, Cursor(s, c), BATCH);
    TakeIsNextSlice(log, Cursor(s, c), BATCH);
    assert forall k | 0 <= k < |rows| :: rows[k] == log[p + k];
  }

  lemma TakeKeeps(r: Reader, s: State, step: Step)
    requires Inv(r, s) && step.Take? && Enabled(r, s, step)
    ensures Inv(r, After(r, s, step))
  {
    var t := After(r, s, step);
    TakenAreNext(s, step.of);
    SameDisk(r, s, t);
    if t.control.Batch? {
      assert NextRows(s, step.of, t.control.rows);
    }
  }

  lemma StepOverCursor(r: Reader, s: State, d: string)
    requires ValidStore(s.store) && ValidCursor(s, d) && NoneSkipped(s, d)
    requires ControlInv(r, s) && Enabled(r, s, StepOver)
    ensures ValidCursor(After(r, s, StepOver), d) && NoneSkipped(After(r, s, StepOver), d)
  {
    var t := After(r, s, StepOver);
    var c, rows := s.control.chain, s.control.rows;
    var log, p := Log(s.store, c), Seen(s, c);
    assert SameEvent(rows[0], log[p]);
    if d == c {
      CursorMoved(s, t, c, p);
    } else {
      OtherCursors(s, t, c);
    }
  }

  lemma StepOverKeeps(r: Reader, s: State)
    requires Inv(r, s) && Enabled(r, s, StepOver)
    ensures Inv(r, After(r, s, StepOver))
  {
    var t := After(r, s, StepOver);
    var c, rows := s.control.chain, s.control.rows;
    NextRowsUnseen(s, c, rows, 0);
    forall d ensures ValidCursor(t, d) && NoneSkipped(t, d) {
      StepOverCursor(r, s, d);
    }
    forall j | 0 <= j < |t.committed| ensures SeenInLog(r, t, t.committed[j]) {
      StillSeen(r, s, t, s.committed[j]);
    }
    RestAreNext(r, s, t, c, rows);
  }

  lemma CommitRowKeeps(r: Reader, s: State)
    requires Inv(r, s) && Enabled(r, s, CommitRow)
    ensures Inv(r, After(r, s, CommitRow))
  {
    var c, rows := s.control.chain, s.control.rows;
    var one := [rows[0]];
    assert one[..0] == [] && ApplyAll(r, s.tables, one) == r.apply(s.tables, rows[0]);
    assert OfEvents(one) == [OfEvent(rows[0])];
    assert After(r, s, CommitRow) == Committing(r, s, c, one, NextRow(c, rows));
    CommittingKeepsDisk(r, s, c, one, NextRow(c, rows));
    RestAreNext(r, s, After(r, s, CommitRow), c, rows);
  }

  /** Every step keeps the invariant: batches, retries, parking, rebuilds, ingest, merges, prunings and crashes. */
  lemma StepKeepsInv(r: Reader, s: State, step: Step)
    requires Inv(r, s) && Enabled(r, s, step)
    ensures Inv(r, After(r, s, step))
  {
    match step
    case Ingest(_, _, _) =>
      IngestKeepsDisk(r, s, step);
      IngestKeepsControl(r, s, step);
    case Take(_) => TakeKeeps(r, s, step);
    case CommitBatch =>
      CommittingKeepsDisk(r, s, s.control.chain, s.control.rows, Idle);
    case CommitRow => CommitRowKeeps(r, s);
    case StepOver => StepOverKeeps(r, s);
    case Rebuild => RebuildKeeps(r, s);
    case _ => QuietStepKeeps(r, s, step);
  }

  lemma RebuildKeeps(r: Reader, s: State)
    requires Inv(r, s) && Enabled(r, s, Rebuild)
    ensures Inv(r, After(r, s, Rebuild))
  {
    var t := After(r, s, Rebuild);
    forall c ensures ValidCursor(t, c) && NoneSkipped(t, c) {
      NothingSeenAtZero(t, c);
    }
  }

  /** Steps that touch neither cursors nor log. */
  lemma QuietStepKeeps(r: Reader, s: State, step: Step)
    requires Inv(r, s) && Enabled(r, s, step)
    requires step.AskRebuild? || step.FailBatch? || step.FailRow? || step.Park? || step.Abandon?
             || step.MergeRow? || step.Prune?
    ensures Inv(r, After(r, s, step))
  {
    var t := After(r, s, step);
    if step.MergeRow? {
      OneMoreChange(r, map[], s.changes, OfMerge(step.write));
    } else if step.Prune? {
      OneMoreChange(r, map[], s.changes, OfPrune(step.ids));
    }
    SameDisk(r, s, t);
    if !s.control.Idle? {
      assert NextRows(t, s.control.chain, s.control.rows);
    }
  }

  /** A row is tried twice: a first failure leaves one more attempt, and the second is the last. */
  lemma TwoAttempts(r: Reader, s: State)
    requires Inv(r, s) && Enabled(r, s, FailRow)
    ensures After(r, s, FailRow).control ==
              if s.control.attempt == 0 then EachRow(s.control.chain, s.control.rows, 1)
              else Failed(s.control.chain, s.control.rows)
    ensures GivesUp(s, FailRow) <==> s.control.attempt == 1
  {
  }

  // ---------- Runs ----------

  /** A run: each state follows from the one before by an enabled step. */
  ghost predicate Run(r: Reader, states: seq<State>, steps: seq<Step>) {
    && |states| == |steps| + 1
    && forall i | 0 <= i < |steps| :: Enabled(r, states[i], steps[i]) && states[i + 1] == After(r, states[i], steps[i])
  }

  /** A run goes on by any step its last state allows. */
  lemma RunOneMore(r: Reader, states: seq<State>, steps: seq<Step>, step: Step, next: State)
    requires Run(r, states, steps) && Enabled(r, states[|steps|], step) && next == After(r, states[|steps|], step)
    ensures Run(r, states + [next], steps + [step])
  {
    hide Enabled, After;
  }

  /** Some run ends in this state. */
  ghost predicate Reaches(r: Reader, s: State) {
    exists states, steps :: Run(r, states, steps) && Initial(states[0]) && states[|steps|] == s
  }

  lemma ReachesInitial(r: Reader, s: State)
    requires Initial(s)
    ensures Reaches(r, s)
  {
    assert Run(r, [s], []);
  }

  lemma ReachesNext(r: Reader, s: State, step: Step, next: State)
    requires Reaches(r, s) && Enabled(r, s, step) && next == After(r, s, step)
    ensures Reaches(r, next)
  {
    hide Enabled, After;
    var states, steps :| Run(r, states, steps) && Initial(states[0]) && states[|steps|] == s;
    RunOneMore(r, states, steps, step, next);
    var more, longer := states + [next], steps + [step];
    assert Run(r, more, longer) && Initial(more[0]) && more[|longer|] == next;
  }

  lemma {:induction false} RunKeepsInv(r: Reader, states: seq<State>, steps: seq<Step>, i: nat)
    requires Run(r, states, steps) && Initial(states[0]) && i < |states|
    ensures Inv(r, states[i])
  {
    if i == 0 {
      InitialInv(r, states[0]);
    } else {
      RunKeepsInv(r, states, steps, i - 1);
      StepKeepsInv(r, states[i - 1], steps[i - 1]);
    }
  }

  lemma InitialInv(r: Reader, s: State)
    requires Initial(s)
    ensures Inv(r, s)
  {
    forall c ensures ValidCursor(s, c) && NoneSkipped(s, c) {
      NothingSeenAtZero(s, c);
    }
  }

  /**
   * Between any two transactions of any run, crashes included: an event at or below the cursor was
   * committed or is parked, one above it is not committed, no event is committed twice since the last
   * rebuild, and the tables are what the committed events and the rows merged and pruned past the
   * reader make of empty ones, in the order they came: the committed events alone, if there were no others.
   */
  lemma EveryStateIsExactlyOnce(r: Reader, states: seq<State>, steps: seq<Step>, i: nat)
    requires Run(r, states, steps) && Initial(states[0]) && i < |states|
    ensures var s := states[i];
            && (forall c, row | row in Log(s.store, c) && row.number <= Cursor(s, c) ::
                  RefOf(row) in s.dead || IsCommitted(s.committed, row))
            && (forall c, row | row in Log(s.store, c) && row.number > Cursor(s, c) ::
                  !IsCommitted(s.committed, row))
            && (forall j, k | 0 <= j < k < |s.committed| :: RefOf(s.committed[j]) != RefOf(s.committed[k]))
            && ChangeAll(r, map[], s.changes) == Some(s.tables) && EventsIn(s.changes) == s.committed
            && ((forall k | 0 <= k < |s.changes| :: s.changes[k].OfEvent?) ==>
                  ApplyAll(r, map[], s.committed) == Some(s.tables))
  {
    RunKeepsInv(r, states, steps, i);
    var s := states[i];
    if forall k | 0 <= k < |s.changes| :: s.changes[k].OfEvent? {
      OnlyEvents(s.changes);
      ChangeAllEvents(r, map[], [], s.committed);
      assert [] + OfEvents(s.committed) == s.changes;
    }
    forall c, row | row in Log(s.store, c) && row.number <= Cursor(s, c)
      ensures RefOf(row) in s.dead || IsCommitted(s.committed, row)
    {
      CursorCuts(s, c);
      var q :| 0 <= q < |Log(s.store, c)| && Log(s.store, c)[q] == row;
      assert NoneSkipped(s, c);
    }
    forall c, row | row in Log(s.store, c) && row.number > Cursor(s, c)
      ensures !IsCommitted(s.committed, row)
    {
      forall j | 0 <= j < |s.committed| ensures !SameEvent(s.committed[j], row) {
        assert SeenInLog(r, s, s.committed[j]);
      }
    }
  }

  // ---------- Progress ----------

  /** Logs only grow, by position, and no cursor goes back. */
  ghost predicate Forward(s: State, t: State) {
    forall c :: Extends(Log(s.store, c), Log(t.store, c)) && Seen(s, c) <= Seen(t, c)
  }

  lemma ForwardTransitive(a: State, b: State, c: State)
    requires Forward(a, b) && Forward(b, c)
    ensures Forward(a, c)
  {
    forall d ensures Extends(Log(a.store, d), Log(c.store, d)) && Seen(a, d) <= Seen(c, d) {
      ExtendsTransitive(Log(a.store, d), Log(b.store, d), Log(c.store, d));
    }
  }

  /** Nothing but a rebuild moves a cursor back, and every commit or skip moves one forward. */
  lemma StepGoesForward(r: Reader, s: State, step: Step)
    requires Inv(r, s) && Enabled(r, s, step) && !step.Rebuild?
    ensures Forward(s, After(r, s, step))
    ensures step.Ingest? || step.MergeRow? || step.Prune? ==> forall c :: Seen(After(r, s, step), c) == Seen(s, c)
    ensures step.CommitBatch? ==>
              Seen(After(r, s, step), s.control.chain) == Seen(s, s.control.chain) + |s.control.rows|
    ensures step.CommitRow? || step.StepOver? ==>
              Seen(After(r, s, step), s.control.chain) == Seen(s, s.control.chain) + 1
  {
    hide Position, TakeEvents, InsertedOne, ApplyAll;
    var t := After(r, s, step);
    assert t.store == s.store && t.cursors == s.cursors ==> forall c :: Seen(t, c) == Seen(s, c);
    match step
    case Ingest(_, _, _) => IngestGoesForward(r, s, step);
    case CommitBatch => BatchGoesForward(r, s);
    case CommitRow => FirstRowSeen(s, t);
    case StepOver => FirstRowSeen(s, t);
    case _ =>
  }

  lemma IngestGoesForward(r: Reader, s: State, step: Step)
    requires DiskInv(r, s) && step.Ingest? && Enabled(r, s, step)
    ensures Forward(s, After(r, s, step))
    ensures forall c :: Seen(After(r, s, step), c) == Seen(s, c)
  {
    var t := After(r, s, step);
    forall c ensures Extends(Log(s.store, c), Log(t.store, c)) && Seen(s, c) == Seen(t, c) {
      IngestKeepsPosition(s, t, step, r, c);
    }
  }

  lemma BatchGoesForward(r: Reader, s: State)
    requires Inv(r, s) && Enabled(r, s, CommitBatch)
    ensures var t := After(r, s, CommitBatch);
            Forward(s, t) && Seen(t, s.control.chain) == Seen(s, s.control.chain) + |s.control.rows|
  {
    CommittingCursor(r, s, s.control.chain, s.control.rows, Idle);
  }

  lemma FirstRowSeen(s: State, t: State)
    requires ValidStore(s.store) && !s.control.Idle? && NextRows(s, s.control.chain, s.control.rows)
    requires t.store == s.store && t.cursors == s.cursors[s.control.chain := s.control.rows[0].number]
    ensures Seen(t, s.control.chain) == Seen(s, s.control.chain) + 1
    ensures Forward(s, t)
  {
    var c := s.control.chain;
    assert SameEvent(s.control.rows[0], Log(s.store, c)[Seen(s, c)]);
    CursorMoved(s, t, c, Seen(s, c));
    OtherCursors(s, t, c);
  }
}
