/**
 * Flows and their legs: what one stored event does to the tables, leg by leg, through the upsert
 * every leg goes through.
 */
module Flows {
  import opened Wrappers
  import opened EventLog
  import opened Merge
  import opened Tables

  /** The outcome of decoding an event and asking a leg which row it belongs to. */
  datatype KeyOutcome = Throws | NotOurs | Keyed(key: string)

  /**
   * One event a flow observes. `id` is the leg object's identity: two places with one id hold one object.
   * `key` may read the tables as the transaction sees them, and leaves them as it says: a lookup may
   * rename a row on its way. `patch` yields None where it throws.
   */
  datatype Leg = Leg(
    id: nat,
    role: string,
    chains: Option<seq<string>>,
    topic: string,
    state: string,
    keyBy: Option<string>,
    key: (EventRow, Tables) -> (KeyOutcome, Tables),
    patch: EventRow -> Option<map<string, string>>)

  datatype Flow = Flow(name: string, keyColumn: string, schema: Schema, unique: set<string>, legs: seq<Leg>)

  datatype SqlError = UniqueViolation | SubqueryNotScalar

  /** The row as merged, whether it is new, and the state it had. */
  datatype Applied = Applied(row: Row, created: bool, previousState: Option<string>)

  // ---------- reconcile ----------

  /** The rows an alternate key addresses. */
  function Matches(f: Flow, t: Tables, keyBy: string, key: string): set<RowId> {
    set id | id in t && id.flow == f.name && keyBy in t[id].columns && t[id].columns[keyBy] == key
  }

  /** The partial unique indexes: no two rows of a flow share a non-null value in a unique column. */
  predicate UniqueHolds(f: Flow, t: Tables) {
    forall a, b, u | a in t && b in t && a != b && a.flow == b.flow == f.name
      && u in f.unique && u in t[a].columns && u in t[b].columns ::
      t[a].columns[u] != t[b].columns[u]
  }

  /** What the two statement shapes leave behind, before the unique indexes are consulted. */
  function Proposed(f: Flow, t: Tables, keyBy: string, key: string, c: Contribution): Tables {
    if keyBy == f.keyColumn then
      Upserted(map[f.name := f.schema], t, Write(RowId(f.name, key), c))
    else
      var hit := Matches(f, t, keyBy, key);
      map id | id in t :: if id in hit then Merged(f.schema, t[id], c) else t[id]
  }

  function Reconciled(f: Flow, t: Tables, keyBy: string, key: string, c: Contribution): Result<Tables, SqlError> {
    if keyBy != f.keyColumn && |Matches(f, t, keyBy, key)| > 1 then Err(SubqueryNotScalar)
    else if UniqueHolds(f, Proposed(f, t, keyBy, key, c)) then Ok(Proposed(f, t, keyBy, key, c))
    else Err(UniqueViolation)
  }

  /** The row a statement returns: the one it merged into, if there was one to merge into. */
  ghost predicate Returned(f: Flow, before: Tables, after: Tables, keyBy: string, key: string, r: Option<Applied>) {
    if r.None? then keyBy != f.keyColumn && Matches(f, before, keyBy, key) == {}
    else
      exists id :: id in after
        && (if keyBy == f.keyColumn then id == RowId(f.name, key) else id in Matches(f, before, keyBy, key))
        && r.value == Applied(after[id], id !in before, if id in before then Some(before[id].state) else None)
  }

  /** The pooled client a transaction runs on, with the tables as the transaction sees them. */
  class Client {
    var tables: Tables

    constructor (t: Tables)
      ensures tables == t
    {
      tables := t;
    }

    /** Ask a leg which row an event belongs to; its statements run on this client. */
    method KeyOf(leg: Leg, row: EventRow) returns (outcome: KeyOutcome)
      modifies this
      ensures (outcome, tables) == leg.key(row, old(tables))
    {
      var (found, after) := leg.key(row, tables);
      outcome, tables := found, after;
    }

    /** Merge one leg's contribution into its row; None when an alternate key matched nothing. */
    method Reconcile(f: Flow, keyBy: string, key: string, state: string, patch: map<string, string>)
      returns (r: Result<Option<Applied>, SqlError>)
      modifies this
      ensures var to := Reconciled(f, old(tables), keyBy, key, Contribution(state, patch));
              if to.Err? then r == Err(to.error) && tables == old(tables)
              else r.Ok? && tables == to.value && Returned(f, old(tables), tables, keyBy, key, r.value)
      ensures r.Ok? && keyBy == f.keyColumn ==>
                OnlyRowMerged(f, old(tables), tables, RowId(f.name, key), Contribution(state, patch))
      ensures r.Ok? && keyBy != f.keyColumn ==>
                && (forall id | HoldsKey(f, old(tables), keyBy, key, id) ::
                      OnlyRowMerged(f, old(tables), tables, id, Contribution(state, patch)))
                && ((forall id :: !HoldsKey(f, old(tables), keyBy, key, id)) ==> tables == old(tables))
      ensures r == Err(SubqueryNotScalar) <==>
                && keyBy != f.keyColumn
                && exists a, b | a != b ::
                     HoldsKey(f, old(tables), keyBy, key, a) && HoldsKey(f, old(tables), keyBy, key, b)
    {
      var before := tables;
      NotScalarIff(f, before, keyBy, key, Contribution(state, patch));
      var to := Reconciled(f, before, keyBy, key, Contribution(state, patch));
      if to.Err? {
        return Err(to.error);
      }
      if keyBy == f.keyColumn {
        PrimaryReconciled(f, before, key, Contribution(state, patch));
      } else {
        AlternateReconciled(f, before, keyBy, key, Contribution(state, patch));
      }
      hide OnlyRowMerged, HoldsKey;
      var id := RowId(f.name, key);
      if keyBy != f.keyColumn {
        var hit := Matches(f, before, keyBy, key);
        if hit == {} {
          assert Proposed(f, before, keyBy, key, Contribution(state, patch)) == before;
          return Ok(None);
        }
        id :| id in hit;
      }
      tables := to.value;
      r := Ok(Some(Applied(tables[id], id !in before, if id in before then Some(before[id].state) else None)));
    }
  }

  /** No row vanishes, no rank falls, no set column becomes NULL, whichever key addressed the row. */
  lemma ReconcileOnlyAdvances(f: Flow, t: Tables, keyBy: string, key: string, c: Contribution, id: RowId)
    requires Reconciled(f, t, keyBy, key, c).Ok?
    ensures var after := Reconciled(f, t, keyBy, key, c).value;
            && UniqueHolds(f, after)
            && (id in t ==>
                  && id in after
                  && Rank(f.schema, t[id].state) <= Rank(f.schema, after[id].state)
                  && t[id].columns.Keys <= after[id].columns.Keys)
            && (id !in t && id in after ==> keyBy == f.keyColumn && id == RowId(f.name, key))
            && (id in t && id.flow != f.name ==> after[id] == t[id])
  {
  }

  // ---------- The two statements, row by row ----------

  /** A row of the flow whose column holds the key. */
  predicate HoldsKey(f: Flow, t: Tables, column: string, key: string, id: RowId) {
    id in t && id.flow == f.name && column in t[id].columns && t[id].columns[column] == key
  }

  /** The two shapes of a merge into one row, and into no other. */
  ghost predicate OnlyRowMerged(f: Flow, t: Tables, after: Tables, id: RowId, c: Contribution) {
    && after.Keys == t.Keys + {id}
    && (if id in t then MergesInto(f.schema, t[id], c, after[id]) else InsertsAs(f.schema, c, after[id]))
    && forall other | other in t && other != id :: after[other] == t[other]
  }

  /** By the primary key: its own row is merged into or inserted, and every other row stays as it is. */
  lemma PrimaryReconciled(f: Flow, t: Tables, key: string, c: Contribution)
    requires Reconciled(f, t, f.keyColumn, key, c).Ok?
    ensures OnlyRowMerged(f, t, Reconciled(f, t, f.keyColumn, key, c).value, RowId(f.name, key), c)
  {
    UpsertedRow(map[f.name := f.schema], t, Write(RowId(f.name, key), c), RowId(f.name, key));
  }

  /**
   * By another column: the row that holds the key is merged into, every other row stays, and none appears;
   * with no such row nothing changes.
   */
  lemma AlternateReconciled(f: Flow, t: Tables, keyBy: string, key: string, c: Contribution)
    requires keyBy != f.keyColumn && Reconciled(f, t, keyBy, key, c).Ok?
    ensures var after := Reconciled(f, t, keyBy, key, c).value;
      && after.Keys == t.Keys
      && (forall id | id in t :: if HoldsKey(f, t, keyBy, key, id) then MergesInto(f.schema, t[id], c, after[id])
                                 else after[id] == t[id])
      && (forall id | HoldsKey(f, t, keyBy, key, id) :: OnlyRowMerged(f, t, after, id, c))
      && ((forall id :: !HoldsKey(f, t, keyBy, key, id)) ==> after == t)
  {
    var hit := Matches(f, t, keyBy, key);
    forall id ensures id in hit <==> HoldsKey(f, t, keyBy, key, id) {
    }
    forall id, other | id in hit && other in hit ensures id == other {
      OnlyOne(hit, id, other);
    }
  }

  lemma OnlyOne<X>(xs: set<X>, x: X, y: X)
    requires |xs| <= 1 && x in xs && y in xs
    ensures x == y
  {
    assert |xs - {x}| == |xs| - 1;
    assert y != x ==> y in xs - {x};
  }

  /** The subquery for the previous state fails exactly when two rows hold the key of another column. */
  lemma NotScalarIff(f: Flow, t: Tables, keyBy: string, key: string, c: Contribution)
    ensures Reconciled(f, t, keyBy, key, c) == Err(SubqueryNotScalar) <==>
      && keyBy != f.keyColumn
      && exists a, b :: a != b && HoldsKey(f, t, keyBy, key, a) && HoldsKey(f, t, keyBy, key, b)
  {
    var hit := Matches(f, t, keyBy, key);
    if a, b :| a != b && HoldsKey(f, t, keyBy, key, a) && HoldsKey(f, t, keyBy, key, b) {
      assert a in hit && b in hit;
      if |hit| <= 1 {
        OnlyOne(hit, a, b);
      }
    }
    if |hit| > 1 {
      var a :| a in hit;
      assert |hit - {a}| > 0;
      var b :| b in hit - {a};
      assert HoldsKey(f, t, keyBy, key, a) && HoldsKey(f, t, keyBy, key, b);
    }
  }

  /** The row a statement merges into or inserts, if there is one. */
  ghost predicate Targets(f: Flow, t: Tables, keyBy: string, key: string, id: RowId) {
    if keyBy == f.keyColumn then id == RowId(f.name, key) else HoldsKey(f, t, keyBy, key, id)
  }

  /** The contribution brings the row a unique value that another row of the flow holds. */
  ghost predicate Collides(f: Flow, t: Tables, c: Contribution, id: RowId) {
    exists other, u | other != id && u in f.unique && u in f.schema.columns && u in c.patch ::
      HoldsKey(f, t, u, c.patch[u], other)
  }

  /** Otherwise it fails exactly when it would give its row a unique value that another row holds. */
  lemma UniqueViolationIff(f: Flow, t: Tables, keyBy: string, key: string, c: Contribution)
    requires UniqueHolds(f, t) && Reconciled(f, t, keyBy, key, c) != Err(SubqueryNotScalar)
    ensures Reconciled(f, t, keyBy, key, c) == Err(UniqueViolation) <==>
      exists id :: Targets(f, t, keyBy, key, id) && Collides(f, t, c, id)
  {
    if id :| Targets(f, t, keyBy, key, id) {
      OnlyTargetChanges(f, t, keyBy, key, c, id);
      CollisionViolates(f, t, Proposed(f, t, keyBy, key, c), c, id);
      forall other | Targets(f, t, keyBy, key, other) ensures other == id {
        if keyBy != f.keyColumn {
          OnlyOne(Matches(f, t, keyBy, key), id, other);
        }
      }
    } else {
      assert keyBy == f.keyColumn ==> Targets(f, t, keyBy, key, RowId(f.name, key));
      forall id ensures id !in Matches(f, t, keyBy, key) {
        assert !Targets(f, t, keyBy, key, id);
      }
      assert Proposed(f, t, keyBy, key, c) == t;
    }
  }

  lemma OnlyTargetChanges(f: Flow, t: Tables, keyBy: string, key: string, c: Contribution, id: RowId)
    requires Targets(f, t, keyBy, key, id) && Reconciled(f, t, keyBy, key, c) != Err(SubqueryNotScalar)
    ensures OnlyRowMerged(f, t, Proposed(f, t, keyBy, key, c), id, c) && id.flow == f.name
  {
    if keyBy == f.keyColumn {
      UpsertedRow(map[f.name := f.schema], t, Write(id, c), id);
    } else {
      var hit := Matches(f, t, keyBy, key);
      forall other | other in hit ensures other == id {
        OnlyOne(hit, id, other);
      }
    }
  }

  lemma CollisionViolates(f: Flow, t: Tables, after: Tables, c: Contribution, id: RowId)
    requires UniqueHolds(f, t) && OnlyRowMerged(f, t, after, id, c) && id.flow == f.name
    ensures UniqueHolds(f, after) <==> !Collides(f, t, c, id)
  {
    if Collides(f, t, c, id) {
      var other, u :| other != id && u in f.unique && u in f.schema.columns && u in c.patch &&
                      HoldsKey(f, t, u, c.patch[u], other);
      assert after[other] == t[other] && u in after[id].columns && after[id].columns[u] == c.patch[u];
    }
    if !Collides(f, t, c, id) {
      forall a, b, u | a in after && b in after && a != b && a.flow == b.flow == f.name
        && u in f.unique && u in after[a].columns && u in after[b].columns
        ensures after[a].columns[u] != after[b].columns[u]
      {
        var other := if a == id then b else a;
        assert after[other] == t[other];
        assert HoldsKey(f, t, u, t[other].columns[u], other);
        assert a != id && b != id ==> after[a] == t[a] && after[b] == t[b];
      }
    }
  }

  // ---------- apply ----------

  /** A place a leg is at: its flow, and where in it. */
  datatype LegRef = LegRef(flow: nat, leg: nat)

  predicate ValidRef(flows: seq<Flow>, ref: LegRef) {
    ref.flow < |flows| && ref.leg < |flows[ref.flow].legs|
  }

  predicate ValidRefs(flows: seq<Flow>, refs: seq<LegRef>) {
    forall i | 0 <= i < |refs| :: ValidRef(flows, refs[i])
  }

  function LegAt(flows: seq<Flow>, ref: LegRef): Leg
    requires ValidRef(flows, ref)
  {
    flows[ref.flow].legs[ref.leg]
  }

  /** What one leg makes of an event, or None where decoding, its key, its patch or the upsert throws. */
  function ApplyLeg(f: Flow, leg: Leg, t: Tables, row: EventRow): Option<Tables> {
    var (outcome, found) := leg.key(row, t);
    match outcome
    case Throws => None
    case NotOurs => Some(found)
    case Keyed(key) =>
      match leg.patch(row)
      case None => None
      case Some(patch) =>
        var keyBy := if leg.keyBy.Some? then leg.keyBy.value else f.keyColumn;
        match Reconciled(f, found, keyBy, key, Contribution(leg.state, patch))
        case Ok(after) => Some(after)
        case Err(_) => None
  }

  /** A leg throws where its key or its patch does; an event not its own leaves the tables as its key does. */
  lemma LegSkips(f: Flow, leg: Leg, t: Tables, row: EventRow)
    ensures leg.key(row, t).0 == Throws ==> ApplyLeg(f, leg, t, row) == None
    ensures leg.key(row, t).0 == NotOurs ==> ApplyLeg(f, leg, t, row) == Some(leg.key(row, t).1)
    ensures leg.key(row, t).0.Keyed? && leg.patch(row).None? ==> ApplyLeg(f, leg, t, row) == None
  {
  }

  /** A leg without a column of its own merges its patch, under its state, into the row its key names. */
  lemma PrimaryLegMerges(f: Flow, leg: Leg, t: Tables, row: EventRow, key: string, patch: map<string, string>)
    requires leg.keyBy.None? && leg.key(row, t).0 == Keyed(key) && leg.patch(row) == Some(patch)
    ensures ApplyLeg(f, leg, t, row).Some? ==>
              OnlyRowMerged(f, leg.key(row, t).1, ApplyLeg(f, leg, t, row).value, RowId(f.name, key),
                            Contribution(leg.state, patch))
    ensures UniqueHolds(f, leg.key(row, t).1) ==>
              (ApplyLeg(f, leg, t, row).None? <==>
                 Collides(f, leg.key(row, t).1, Contribution(leg.state, patch), RowId(f.name, key)))
  {
    var found, c := leg.key(row, t).1, Contribution(leg.state, patch);
    if ApplyLeg(f, leg, t, row).Some? {
      PrimaryReconciled(f, found, key, c);
    }
    if UniqueHolds(f, found) {
      UniqueViolationIff(f, found, f.keyColumn, key, c);
    }
  }

  /**
   * A leg with a column of its own merges into the row that holds its key there, changes nothing where none
   * does, and throws where two do or the merge would repeat another row's unique value.
   */
  lemma AlternateLegMerges(
      f: Flow, leg: Leg, t: Tables, row: EventRow, column: string, key: string, patch: map<string, string>)
    requires leg.keyBy == Some(column) && column != f.keyColumn
    requires leg.key(row, t).0 == Keyed(key) && leg.patch(row) == Some(patch)
    ensures var found, c, to := leg.key(row, t).1, Contribution(leg.state, patch), ApplyLeg(f, leg, t, row);
      && (to.Some? ==> forall id | HoldsKey(f, found, column, key, id) :: OnlyRowMerged(f, found, to.value, id, c))
      && (to.Some? && (forall id :: !HoldsKey(f, found, column, key, id)) ==> to.value == found)
      && (UniqueHolds(f, found) ==>
            (to.None? <==>
               || (exists a, b :: a != b && HoldsKey(f, found, column, key, a) && HoldsKey(f, found, column, key, b))
               || (exists id :: HoldsKey(f, found, column, key, id) && Collides(f, found, c, id))))
  {
    var found, c := leg.key(row, t).1, Contribution(leg.state, patch);
    NotScalarIff(f, found, column, key, c);
    if ApplyLeg(f, leg, t, row).Some? {
      AlternateReconciled(f, found, column, key, c);
    }
    if UniqueHolds(f, found) {
      UniqueOrNot(f, found, column, key, c);
    }
  }

  lemma UniqueOrNot(f: Flow, t: Tables, column: string, key: string, c: Contribution)
    requires UniqueHolds(f, t) && column != f.keyColumn
    ensures Reconciled(f, t, column, key, c).Err? <==>
      || (exists a, b :: a != b && HoldsKey(f, t, column, key, a) && HoldsKey(f, t, column, key, b))
      || (exists id :: HoldsKey(f, t, column, key, id) && Collides(f, t, c, id))
  {
    NotScalarIff(f, t, column, key, c);
    if Reconciled(f, t, column, key, c) != Err(SubqueryNotScalar) {
      UniqueViolationIff(f, t, column, key, c);
      if id :| Targets(f, t, column, key, id) && Collides(f, t, c, id) {
        assert HoldsKey(f, t, column, key, id) && Collides(f, t, c, id);
      }
      if id :| HoldsKey(f, t, column, key, id) && Collides(f, t, c, id) {
        assert Targets(f, t, column, key, id) && Collides(f, t, c, id);
      }
    }
  }

  /** What every leg that claims an event makes of it, in order. */
  function ApplyLegs(flows: seq<Flow>, refs: seq<LegRef>, t: Tables, row: EventRow): Option<Tables>
    requires ValidRefs(flows, refs)
  {
    if refs == [] then Some(t)
    else
      var last := refs[|refs| - 1];
      match ApplyLegs(flows, refs[..|refs| - 1], t, row)
      case None => None
      case Some(before) => ApplyLeg(flows[last.flow], LegAt(flows, last), before, row)
  }

  /** A row merged past the legs, by primary key; None where there is no such flow or the upsert throws. */
  function MergedPast(flows: seq<Flow>, t: Tables, w: Write): Option<Tables> {
    if flows == [] then None
    else
      var f := flows[|flows| - 1];
      if f.name != w.id.flow then MergedPast(flows[..|flows| - 1], t, w)
      else
        match Reconciled(f, t, f.keyColumn, w.id.key, w.contribution)
        case Ok(after) => Some(after)
        case Err(_) => None
  }

  ghost predicate DistinctNames(flows: seq<Flow>) {
    forall i, j | 0 <= i < j < |flows| :: flows[i].name != flows[j].name
  }

  // ---------- Flows whose keys only read ----------

  /** The leg's key is a lookup: it changes nothing. */
  ghost predicate KeyOnlyReads(leg: Leg) {
    forall row, t :: leg.key(row, t).1 == t
  }

  ghost predicate KeysOnlyRead(flows: seq<Flow>) {
    forall i, j | 0 <= i < |flows| && 0 <= j < |flows[i].legs| :: KeyOnlyReads(flows[i].legs[j])
  }

  /** No row vanishes, no rank falls, no set column becomes NULL. */
  ghost predicate Advances(schemas: Schemas, t: Tables, u: Tables) {
    forall id | id in t :: AdvancesAt(SchemaOf(schemas, id.flow), t, u, id)
  }

  ghost predicate AdvancesAt(s: Schema, t: Tables, u: Tables, id: RowId)
    requires id in t
  {
    id in u && Rank(s, t[id].state) <= Rank(s, u[id].state) && t[id].columns.Keys <= u[id].columns.Keys
  }

  lemma AdvancesTransitive(schemas: Schemas, a: Tables, b: Tables, c: Tables)
    requires Advances(schemas, a, b) && Advances(schemas, b, c)
    ensures Advances(schemas, a, c)
  {
    forall id | id in a ensures AdvancesAt(SchemaOf(schemas, id.flow), a, c, id) {
      assert AdvancesAt(SchemaOf(schemas, id.flow), a, b, id);
    }
  }

  lemma ReconcileAdvances(flows: seq<Flow>, i: nat, t: Tables, keyBy: string, key: string, c: Contribution)
    requires i < |flows| && DistinctNames(flows) && Reconciled(flows[i], t, keyBy, key, c).Ok?
    ensures Advances(SchemasOf(flows), t, Reconciled(flows[i], t, keyBy, key, c).value)
  {
    hide Reconciled;
    SchemaByName(flows, i);
    forall id | id in t
      ensures AdvancesAt(SchemaOf(SchemasOf(flows), id.flow), t, Reconciled(flows[i], t, keyBy, key, c).value, id)
    {
      ReconcileOnlyAdvances(flows[i], t, keyBy, key, c, id);
    }
  }

  /** What the legs do to the tables only advances them, whatever columns they key on. */
  lemma {:induction false} LegsAdvance(flows: seq<Flow>, refs: seq<LegRef>, t: Tables, row: EventRow)
    requires ValidRefs(flows, refs) && DistinctNames(flows) && KeysOnlyRead(flows)
    requires ApplyLegs(flows, refs, t, row).Some?
    ensures Advances(SchemasOf(flows), t, ApplyLegs(flows, refs, t, row).value)
  {
    hide Reconciled, SchemasOf;
    if refs != [] {
      var front, last := refs[..|refs| - 1], refs[|refs| - 1];
      LegsAdvance(flows, front, t, row);
      var before := ApplyLegs(flows, front, t, row).value;
      var f, leg := flows[last.flow], LegAt(flows, last);
      assert KeyOnlyReads(leg);
      if leg.key(row, before).0.Keyed? {
        var keyBy := if leg.keyBy.Some? then leg.keyBy.value else f.keyColumn;
        var c := Contribution(leg.state, leg.patch(row).value);
        ReconcileAdvances(flows, last.flow, before, keyBy, leg.key(row, before).0.key, c);
        var after := Reconciled(f, before, keyBy, leg.key(row, before).0.key, c).value;
        AdvancesTransitive(SchemasOf(flows), t, before, after);
      }
    }
  }

  /** A merge past the legs is the upsert of the flow it names. */
  lemma {:induction false} MergedPastIs(flows: seq<Flow>, t: Tables, w: Write) returns (i: nat)
    requires MergedPast(flows, t, w).Some?
    ensures i < |flows| && flows[i].name == w.id.flow
    ensures Reconciled(flows[i], t, flows[i].keyColumn, w.id.key, w.contribution) == Ok(MergedPast(flows, t, w).value)
  {
    hide Reconciled;
    if flows[|flows| - 1].name == w.id.flow {
      i := |flows| - 1;
    } else {
      i := MergedPastIs(flows[..|flows| - 1], t, w);
    }
  }

  /**
   * Row by row: a row merged past the legs is merged into or inserted in the flow it names, and refused
   * exactly if there is no such flow or the merge would repeat another row's unique value.
   */
  lemma MergedPastMerges(flows: seq<Flow>, i: nat, t: Tables, w: Write)
    requires i < |flows| && DistinctNames(flows) && flows[i].name == w.id.flow
    ensures MergedPast(flows, t, w).Some? ==>
              OnlyRowMerged(flows[i], t, MergedPast(flows, t, w).value, w.id, w.contribution)
    ensures UniqueHolds(flows[i], t) ==>
              (MergedPast(flows, t, w).None? <==> Collides(flows[i], t, w.contribution, w.id))
  {
    var f := flows[i];
    MergedPastFinds(flows, i, t, w);
    if MergedPast(flows, t, w).Some? {
      PrimaryReconciled(f, t, w.id.key, w.contribution);
    }
    if UniqueHolds(f, t) {
      UniqueViolationIff(f, t, f.keyColumn, w.id.key, w.contribution);
    }
  }

  lemma {:induction false} MergedPastFinds(flows: seq<Flow>, i: nat, t: Tables, w: Write)
    requires i < |flows| && DistinctNames(flows) && flows[i].name == w.id.flow
    ensures var to := Reconciled(flows[i], t, flows[i].keyColumn, w.id.key, w.contribution);
            MergedPast(flows, t, w) == if to.Ok? then Some(to.value) else None
  {
    hide Reconciled;
    var n := |flows| - 1;
    if i < n {
      assert flows[i].name != flows[n].name;
      MergedPastFinds(flows[..n], i, t, w);
    }
  }

  // ---------- Flows whose meaning does not depend on the tables ----------

  /** A leg that keys on the primary key, by a key that does not look at the tables or change them. */
  ghost predicate KeysOnPrimary(f: Flow, leg: Leg) {
    && (leg.keyBy.Some? ==> leg.keyBy.value == f.keyColumn)
    && KeyOnlyReads(leg)
    && forall row, t, u :: leg.key(row, t).0 == leg.key(row, u).0
  }

  /** No unique columns, every leg keyed on the primary key, and no two flows of one name. */
  ghost predicate Commutative(flows: seq<Flow>) {
    && (forall i | 0 <= i < |flows| :: flows[i].unique == {})
    && (forall i, j | 0 <= i < |flows| && 0 <= j < |flows[i].legs| :: KeysOnPrimary(flows[i], flows[i].legs[j]))
    && DistinctNames(flows)
  }

  function SchemasOf(flows: seq<Flow>): Schemas {
    if flows == [] then map[]
    else SchemasOf(flows[..|flows| - 1])[flows[|flows| - 1].name := flows[|flows| - 1].schema]
  }

  predicate LegApplicable(leg: Leg, row: EventRow) {
    match leg.key(row, map[]).0
    case Throws => false
    case NotOurs => true
    case Keyed(_) => leg.patch(row).Some?
  }

  function LegWrites(f: Flow, leg: Leg, row: EventRow): seq<Write> {
    match leg.key(row, map[]).0
    case Keyed(key) =>
      (match leg.patch(row)
       case Some(patch) => [Write(RowId(f.name, key), Contribution(leg.state, patch))]
       case None => [])
    case _ => []
  }

  predicate LegsApplicable(flows: seq<Flow>, refs: seq<LegRef>, row: EventRow)
    requires ValidRefs(flows, refs)
  {
    forall i | 0 <= i < |refs| :: LegApplicable(LegAt(flows, refs[i]), row)
  }

  function LegsWrites(flows: seq<Flow>, refs: seq<LegRef>, row: EventRow): seq<Write>
    requires ValidRefs(flows, refs)
  {
    if refs == [] then []
    else
      var last := refs[|refs| - 1];
      LegsWrites(flows, refs[..|refs| - 1], row) + LegWrites(flows[last.flow], LegAt(flows, last), row)
  }

  lemma LegIsItsWrites(flows: seq<Flow>, ref: LegRef, t: Tables, row: EventRow)
    requires ValidRef(flows, ref) && Commutative(flows)
    ensures var f, leg := flows[ref.flow], LegAt(flows, ref);
            ApplyLeg(f, leg, t, row) ==
              if LegApplicable(leg, row) then Some(UpsertedAll(SchemasOf(flows), t, LegWrites(f, leg, row))) else None
  {
    var f, leg := flows[ref.flow], LegAt(flows, ref);
    assert KeysOnPrimary(f, leg) && leg.key(row, t) == (leg.key(row, map[]).0, t);
    if LegApplicable(leg, row) && leg.key(row, t).0.Keyed? {
      var key, c := leg.key(row, t).0.key, Contribution(leg.state, leg.patch(row).value);
      var w := Write(RowId(f.name, key), c);
      assert SchemaOf(SchemasOf(flows), f.name) == f.schema by {
        SchemaByName(flows, ref.flow);
      }
      assert Proposed(f, t, f.keyColumn, key, c) == Upserted(SchemasOf(flows), t, w);
      assert LegWrites(f, leg, row) == [w] && [w][..0] == [];
    }
  }

  lemma {:induction false} SchemaByName(flows: seq<Flow>, i: nat)
    requires i < |flows| && DistinctNames(flows)
    ensures SchemaOf(SchemasOf(flows), flows[i].name) == flows[i].schema
  {
    if i < |flows| - 1 {
      SchemaByName(flows[..|flows| - 1], i);
    }
  }

  /** And a row merged past them is its write. */
  lemma MergedPastIsItsWrite(flows: seq<Flow>, t: Tables, w: Write)
    requires Commutative(flows) && MergedPast(flows, t, w).Some?
    ensures MergedPast(flows, t, w) == Some(Upserted(SchemasOf(flows), t, w))
  {
    var i := MergedPastIs(flows, t, w);
    SchemaByName(flows, i);
  }

  /** With commutative flows an event is its writes, whatever the tables hold. */
  lemma {:induction false} LegsAreTheirWrites(flows: seq<Flow>, refs: seq<LegRef>, t: Tables, row: EventRow)
    requires ValidRefs(flows, refs) && Commutative(flows)
    ensures ApplyLegs(flows, refs, t, row) ==
              if LegsApplicable(flows, refs, row)
              then Some(UpsertedAll(SchemasOf(flows), t, LegsWrites(flows, refs, row))) else None
  {
    if refs != [] {
      var front, last := refs[..|refs| - 1], refs[|refs| - 1];
      assert refs == front + [last];
      LegsAreTheirWrites(flows, front, t, row);
      if LegsApplicable(flows, front, row) {
        var before := UpsertedAll(SchemasOf(flows), t, LegsWrites(flows, front, row));
        LegIsItsWrites(flows, last, before, row);
        UpsertedAllAppend(SchemasOf(flows), t, LegsWrites(flows, front, row),
                          LegWrites(flows[last.flow], LegAt(flows, last), row));
      }
    }
  }
}
