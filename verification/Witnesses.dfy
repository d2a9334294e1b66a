/** Runs of the reader, and of the relayer's queue, that show the conditions of the theorems to be needed. */
module Witnesses {
  import opened Wrappers
  import opened EventLog
  import opened Merge
  import opened Tables
  import opened ReaderProtocol
  import opened Parking
  import opened Replay
  import opened Flows

  lemma TakeOne(r: Reader, s: State, row: EventRow)
    requires Reaches(r, s) && s.control.Idle? && row.chain in r.chains
    requires Log(s.store, row.chain) == [row] && Cursor(s, row.chain) < row.number
    ensures Reaches(r, s.(control := Batch(row.chain, [row])))
  {
    var c := row.chain;
    var one := [row];
    assert one[1..] == [] && Unseen(one, Cursor(s, c)) == one;
    ReachesNext(r, s, Take(c), s.(control := Batch(c, [row])));
  }

  /** Failing has causes of its own, so any row can fail as a batch and twice alone, and be parked. */
  lemma FailAndPark(r: Reader, s: State, row: EventRow)
    requires Reaches(r, s) && s.control == Batch(row.chain, [row])
    ensures Reaches(r, s.(dead := s.dead + {RefOf(row)}, control := Parked(row.chain, [row])))
  {
    hide Reaches;
    var c, rows := row.chain, [row];
    ReachesNext(r, s, FailBatch, s.(control := EachRow(c, rows, 0)));
    ReachesNext(r, s.(control := EachRow(c, rows, 0)), FailRow, s.(control := EachRow(c, rows, 1)));
    ReachesNext(r, s.(control := EachRow(c, rows, 1)), FailRow, s.(control := Failed(c, rows)));
    ReachesNext(r, s.(control := Failed(c, rows)), Park,
      s.(dead := s.dead + {RefOf(row)}, control := Parked(c, rows)));
  }

  lemma CommitOne(r: Reader, s: State, row: EventRow, next: State)
    requires Reaches(r, s) && s.control == Batch(row.chain, [row]) && r.apply(s.tables, row).Some?
    requires next == s.(tables := r.apply(s.tables, row).value, cursors := s.cursors[row.chain := row.number],
                        committed := s.committed + [row], changes := s.changes + [OfEvent(row)], control := Idle)
    ensures Reaches(r, next)
  {
    var one := [row];
    assert one[..0] == [] && ApplyAll(r, s.tables, one) == r.apply(s.tables, row);
    assert OfEvents(one) == [OfEvent(row)];
    ReachesNext(r, s, CommitBatch, next);
  }

  /** The one event of a store, parked, with the reader about to step over it. */
  function ParkedState(row: EventRow): State {
    State(map[row.chain := [row]], map[], {RefOf(row)}, map[], false, [], [], Parked(row.chain, [row]))
  }

  lemma ParkedReaches(r: Reader, row: EventRow)
    requires row.number > 0 && r.chains == {row.chain}
    ensures Reaches(r, ParkedState(row))
  {
    var a := State(map[row.chain := [row]], map[], {}, map[], false, [], [], Idle);
    ReachesInitial(r, a);
    hide Reaches, After;
    TakeOne(r, a, row);
    FailAndPark(r, a.(control := Batch(row.chain, [row])), row);
    assert a.dead + {RefOf(row)} == {RefOf(row)};
  }

  /** It happens: a row fails twice for want of a connection, is parked, the process dies, and a restart commits it. */
  lemma BothCanHappen(row: EventRow)
    requires row.number > 0
    ensures exists r: Reader, s: State :: Reaches(r, s) && CommittedRef(s, RefOf(row)) && RefOf(row) in s.dead
  {
    var r := Reader({row.chain}, (t, e) => Some(t), (t, w) => None);
    var parked := ParkedState(row);
    ParkedReaches(r, row);
    hide Reaches, ApplyAll;
    ReachesNext(r, parked, Abandon, parked.(control := Idle));
    var both := parked.(cursors := map[][row.chain := row.number], committed := [] + [row],
                        changes := [] + [OfEvent(row)], control := Idle);
    ReadOne(r, parked.(control := Idle), row, both);
    assert RefOf(both.committed[0]) == RefOf(row);
  }

  // ---------- An extrinsic filled in after its event was read ----------

  /** One flow whose one leg writes the event's extrinsic into a column. */
  function Extrinsics(): Meaning {
    Meaning(map["f" := Schema(map["s" := 0], {"x"})], row => true, row => [ExtrinsicWrite(row)])
  }

  function ExtrinsicWrite(row: EventRow): Write {
    Write(RowId("f", "k"),
          Contribution("s", if row.raw.extrinsic.Some? then map["x" := row.raw.extrinsic.value] else map[]))
  }

  function ExtrinsicReader(c: string): Reader {
    var m := Extrinsics();
    Reader({c}, (t, row) => Some(UpsertedAll(m.schemas, t, m.writes(row))), (t, w) => None)
  }

  /** The table the reader keeps of one event. */
  function TableOf(row: EventRow): Tables {
    map[RowId("f", "k") := Inserted(Schema(map["s" := 0], {"x"}), ExtrinsicWrite(row).contribution)]
  }

  lemma AppliesToTable(c: string, row: EventRow)
    ensures ExtrinsicReader(c).apply(map[], row) == Some(TableOf(row))
  {
    var one := [ExtrinsicWrite(row)];
    assert one[..0] == [] && UpsertedAll(Extrinsics().schemas, map[], one) == TableOf(row);
  }

  /** Reading the one event of a store and committing it. */
  lemma ReadOne(r: Reader, s: State, row: EventRow, next: State)
    requires Reaches(r, s) && s.control.Idle? && row.chain in r.chains
    requires Log(s.store, row.chain) == [row] && Cursor(s, row.chain) < row.number && r.apply(s.tables, row).Some?
    requires next == s.(tables := r.apply(s.tables, row).value, cursors := s.cursors[row.chain := row.number],
                        committed := s.committed + [row], changes := s.changes + [OfEvent(row)])
    ensures Reaches(r, next)
  {
    TakeOne(r, s, row);
    CommitOne(r, s.(control := Batch(row.chain, [row])), row, next);
  }

  /** The reader that has committed the event as `row`, its store now holding it as `stored`. */
  function Having(row: EventRow, stored: EventRow): State {
    State(map[row.chain := [stored]], map[row.chain := row.number], {}, TableOf(row), false,
          [row], [OfEvent(row)], Idle)
  }

  function FilledIn(row: EventRow, extrinsic: string): EventRow {
    row.(raw := row.raw.(extrinsic := Some(extrinsic)))
  }

  lemma CommitReaches(row: EventRow)
    requires row.number > 0
    ensures Reaches(ExtrinsicReader(row.chain), Having(row, row))
  {
    var r := ExtrinsicReader(row.chain);
    var empty := State(map[row.chain := [row]], map[], {}, map[], false, [], [], Idle);
    AppliesToTable(row.chain, row);
    ReachesInitial(r, empty);
    hide Reaches, TableOf;
    assert [] + [row] == [row] && [] + [OfEvent(row)] == [OfEvent(row)];
    assert map[][row.chain := row.number] == map[row.chain := row.number];
    ReadOne(r, empty, row, Having(row, row));
  }

  lemma FillReaches(row: EventRow, extrinsic: string)
    requires row.number > 0 && row.raw.extrinsic.None?
    ensures Reaches(ExtrinsicReader(row.chain), Having(row, FilledIn(row, extrinsic)))
  {
    var c, filled := row.chain, FilledIn(row, extrinsic);
    var a := Having(row, row);
    CommitReaches(row);
    hide Reaches, TableOf;
    assert Log(a.store, c) == [row] && InsertedOne([row], c, filled.raw, row.number + 1) == [filled];
    assert a.store[c := [filled]] == map[c := [filled]];
    ReachesNext(ExtrinsicReader(c), a, Ingest(c, filled.raw, row.number + 1), Having(row, filled));
  }

  lemma ReplayReaches(row: EventRow, extrinsic: string)
    requires row.number > 0 && row.raw.extrinsic.None?
    ensures Reaches(ExtrinsicReader(row.chain), Having(FilledIn(row, extrinsic), FilledIn(row, extrinsic)))
  {
    var r, filled := ExtrinsicReader(row.chain), FilledIn(row, extrinsic);
    var a := Having(row, filled);
    var anew := a.(tables := map[], cursors := map[], committed := [], changes := []);
    FillReaches(row, extrinsic);
    AppliesToTable(row.chain, filled);
    hide Reaches, TableOf;
    ReachesNext(r, a, AskRebuild, a.(rebuildAsked := true));
    ReachesNext(r, a.(rebuildAsked := true), Rebuild, anew);
    assert [] + [filled] == [filled] && [] + [OfEvent(filled)] == [OfEvent(filled)];
    assert map[][row.chain := row.number] == map[row.chain := row.number];
    ReadOne(r, anew, filled, Having(filled, filled));
  }

  lemma HavingIsDrained(row: EventRow, stored: EventRow)
    requires row.number > 0 && SameEvent(row, stored)
    ensures Drained(ExtrinsicReader(row.chain), Having(row, stored))
    ensures NothingMissed(Extrinsics(), Having(row, stored))
  {
    var s := Having(row, stored);
    assert SameEvent(s.committed[0], stored) && IsCommitted(s.committed, stored);
  }

  /** Listings of one write agree with themselves. */
  lemma OneAgrees(schemas: Schemas, ws: seq<Write>, w: Write, id: RowId)
    requires forall v | v in ws :: v == w
    ensures Agreeing(SchemaOf(schemas, id.flow), Contributions(Elements(ws), id))
  {
    assert forall c | c in Contributions(Elements(ws), id) :: c == w.contribution;
  }

  /** With one stored event there is one write. */
  lemma OneWriteAgrees(row: EventRow, stored: EventRow, id: RowId)
    ensures WritesAgree(ExtrinsicReader(row.chain), Extrinsics(), Having(row, stored), id)
  {
    var r, m, s := ExtrinsicReader(row.chain), Extrinsics(), Having(row, stored);
    OnlyAnEvent(row);
    forall ws: seq<Write> | Lists(r, m, s, ws)
      ensures Agreeing(SchemaOf(m.schemas, id.flow), Contributions(Elements(ws), id))
    {
      forall w | w in ws ensures w == ExtrinsicWrite(stored) {
        assert StoredWrite(r, m, s.store, w);
      }
      OneAgrees(m.schemas, ws, ExtrinsicWrite(stored), id);
    }
  }

  lemma OnlyAnEvent(row: EventRow)
    ensures MergesIn([OfEvent(row)]) == [] && PrunedIn([OfEvent(row)]) == {}
  {
    assert [OfEvent(row)][..0] == [];
  }

  /**
   * An extrinsic filled in after its event was committed reaches the tables only by a rebuild: the same
   * store, drained before and after one, has different tables, though every other condition of the replay
   * theorem holds.
   */
  lemma FillAfterReadDiffers(row: EventRow, extrinsic: string)
    requires row.number > 0 && row.raw.extrinsic.None?
    ensures exists r: Reader, m: Meaning, a: State, b: State ::
      && Means(r, m) && (forall id: RowId :: WritesAgree(r, m, a, id) && SameMerges(a, b, id))
      && Reaches(r, a) && Reaches(r, b)
      && a.store == b.store && Drained(r, a) && Drained(r, b)
      && NothingMissed(m, a) && NothingMissed(m, b) && AsRead(m, b)
      && a.tables != b.tables
  {
    var filled := FilledIn(row, extrinsic);
    var r, m, a, b := ExtrinsicReader(row.chain), Extrinsics(), Having(row, filled), Having(filled, filled);
    assert TableOf(row) != TableOf(filled) by {
      assert "x" !in TableOf(row)[RowId("f", "k")].columns && "x" in TableOf(filled)[RowId("f", "k")].columns;
    }
    FillReaches(row, extrinsic);
    ReplayReaches(row, extrinsic);
    HavingIsDrained(row, filled);
    HavingIsDrained(filled, filled);
    forall id: RowId ensures WritesAgree(r, m, a, id) && SameMerges(a, b, id) {
      OneWriteAgrees(row, filled, id);
      OnlyAnEvent(row);
      OnlyAnEvent(filled);
    }
    assert AsRead(m, b);
    assert Means(r, m);
    hide *;
  }

  // ---------- A row merged past the reader ----------

  /** The tables with one row merged into empty ones, past a reader that had nothing to read. */
  function HavingMerged(m: Meaning, w: Write): State {
    State(map[], map[], {}, Upserted(m.schemas, map[], w), false, [], [OfMerge(w)], Idle)
  }

  function Nothing(): State {
    State(map[], map[], {}, map[], false, [], [], Idle)
  }

  lemma MergeReaches(r: Reader, m: Meaning, w: Write)
    requires Means(r, m) && r.merge(map[], w).Some?
    ensures Reaches(r, HavingMerged(m, w)) && Reaches(r, Nothing())
  {
    var a := HavingMerged(m, w);
    ReachesInitial(r, Nothing());
    hide Reaches, Upserted;
    assert [] + [OfMerge(w)] == [OfMerge(w)];
    ReachesNext(r, Nothing(), MergeRow(w), a);
    ReachesNext(r, a, AskRebuild, a.(rebuildAsked := true));
    ReachesNext(r, a.(rebuildAsked := true), Rebuild, Nothing());
  }

  lemma OneMergeAgrees(r: Reader, m: Meaning, w: Write, id: RowId)
    ensures WritesAgree(r, m, HavingMerged(m, w), id)
    ensures MergesIn(HavingMerged(m, w).changes) == [w] && PrunedIn(HavingMerged(m, w).changes) == {}
  {
    var s := HavingMerged(m, w);
    assert s.changes[..0] == [] && MergesIn(s.changes) == [] + [w];
    forall ws: seq<Write> | Lists(r, m, s, ws)
      ensures Agreeing(SchemaOf(m.schemas, id.flow), Contributions(Elements(ws), id))
    {
      forall v | v in ws ensures v == w {
        assert !StoredWrite(r, m, s.store, v);
      }
      OneAgrees(m.schemas, ws, w, id);
    }
  }

  lemma NothingToRead(r: Reader, m: Meaning, s: State)
    requires s.store == map[] && s.committed == [] && s.control.Idle?
    ensures Drained(r, s) && Unspoilt(m, s)
  {
  }

  /**
   * A rebuild loses what was merged past the reader: with any reader and any such merge, its tables before
   * and after a rebuild differ, though the store is drained and every condition of the replay theorem but
   * that on the merges holds.
   */
  lemma RebuildLosesMerge(r: Reader, m: Meaning, w: Write)
    requires Means(r, m) && r.merge(map[], w).Some?
    ensures exists a: State, b: State ::
      && Reaches(r, a) && Enabled(r, a, AskRebuild) && Enabled(r, After(r, a, AskRebuild), Rebuild)
      && b == After(r, After(r, a, AskRebuild), Rebuild)
      && a.store == b.store && Drained(r, a) && Drained(r, b) && WritesAgree(r, m, a, w.id)
      && Unspoilt(m, a) && Unspoilt(m, b) && PrunedIn(a.changes) == PrunedIn(b.changes) == {}
      && !SameMerges(a, b, w.id) && w.id in a.tables && w.id !in b.tables
  {
    var a, b := HavingMerged(m, w), Nothing();
    MergeReaches(r, m, w);
    OneMergeAgrees(r, m, w, w.id);
    assert w in Elements(MergesIn(a.changes));
    assert w.contribution in Contributions(Elements(MergesIn(a.changes)), w.id);
    assert b == After(r, After(r, a, AskRebuild), Rebuild);
    NothingToRead(r, m, a);
    NothingToRead(r, m, b);
    hide *;
  }

  // ---------- A row pruned past the reader ----------

  /** The reader that has committed the event, its row pruned since. */
  function HavingPruned(row: EventRow): State {
    Having(row, row).(tables := map[], changes := [OfEvent(row), OfPrune({RowId("f", "k")})])
  }

  /**
   * A row that was pruned is missing from a reader's tables, and there again once the same store has been
   * replayed, though every condition of the replay theorem but that on pruning holds.
   */
  lemma RebuildRestoresPruned(row: EventRow)
    requires row.number > 0
    ensures exists r: Reader, m: Meaning, a: State, b: State, id: RowId ::
      && Means(r, m) && Reaches(r, a) && Reaches(r, b) && a.store == b.store && Drained(r, a) && Drained(r, b)
      && WritesAgree(r, m, a, id) && SameMerges(a, b, id)
      && NothingMissed(m, a) && NothingMissed(m, b) && AsRead(m, a) && AsRead(m, b)
      && id in PrunedIn(a.changes) && PrunedIn(b.changes) == {}
      && id !in a.tables && id in b.tables
  {
    var r, m, a, b := ExtrinsicReader(row.chain), Extrinsics(), HavingPruned(row), Having(row, row);
    var id := RowId("f", "k");
    CommitReaches(row);
    PruneReaches(row);
    HavingIsDrained(row, row);
    OnlyAnEvent(row);
    PrunedAgrees(row, id);
    PrunedIsDrained(row);
    assert Means(r, m);
    assert id !in a.tables && id in b.tables;
    hide *;
  }

  lemma PrunedAgrees(row: EventRow, id: RowId)
    ensures WritesAgree(ExtrinsicReader(row.chain), Extrinsics(), HavingPruned(row), id)
    ensures SameMerges(HavingPruned(row), Having(row, row), id)
    ensures PrunedIn(HavingPruned(row).changes) == {RowId("f", "k")}
  {
    var r, m, a, b := ExtrinsicReader(row.chain), Extrinsics(), HavingPruned(row), Having(row, row);
    OneWriteAgrees(row, row, id);
    OnlyAnEvent(row);
    assert a.changes[..1] == b.changes;
    assert MergesIn(a.changes) == MergesIn(b.changes) + [];
    assert forall ws :: Lists(r, m, a, ws) <==> Lists(r, m, b, ws);
  }

  lemma PruneReaches(row: EventRow)
    requires row.number > 0
    ensures Reaches(ExtrinsicReader(row.chain), HavingPruned(row))
  {
    CommitReaches(row);
    hide Reaches;
    assert [OfEvent(row)] + [OfPrune({RowId("f", "k")})] == HavingPruned(row).changes;
    ReachesNext(ExtrinsicReader(row.chain), Having(row, row), Prune({RowId("f", "k")}), HavingPruned(row));
  }

  lemma PrunedIsDrained(row: EventRow)
    requires row.number > 0
    ensures Drained(ExtrinsicReader(row.chain), HavingPruned(row))
    ensures NothingMissed(Extrinsics(), HavingPruned(row)) && AsRead(Extrinsics(), HavingPruned(row))
    ensures AsRead(Extrinsics(), Having(row, row))
  {
    var s := HavingPruned(row);
    assert SameEvent(s.committed[0], row) && IsCommitted(s.committed, row);
  }

  // ---------- A key that does more than look ----------

  /** A lookup that gives the row of "o" the key "k", as one does that adopts an early delivery. */
  function Renamed(f: string, t: Tables): Tables {
    var o, k := RowId(f, "o"), RowId(f, "k");
    if o in t && k !in t then (t - {o})[k := t[o]] else t
  }

  /** With such a key a row vanishes, under its old key, from one event to the next. */
  lemma RenamingKeyLosesRow(row: EventRow)
    ensures exists f: Flow, leg: Leg, t: Tables ::
      && ApplyLeg(f, leg, t, row).Some?
      && !Advances(SchemasOf([f]), t, ApplyLeg(f, leg, t, row).value)
  {
    var leg := Leg(0, "", None, "", "s", None, (e, t) => (Keyed("k"), Renamed("f", t)), e => Some(map[]));
    var f := Flow("f", "id", Schema(map["s" := 0], {}), {}, [leg]);
    var o, t := RowId("f", "o"), map[RowId("f", "o") := Row("s", map[])];
    var after := ApplyLeg(f, leg, t, row);
    assert after.Some? && o in t && o !in after.value;
  }
}
