/**
 * The reader a set of flows and routes makes: what an event does to its tables through every leg that
 * claims it, what a row merged past the legs does, and what neither can do.
 */
module Readers {
  import opened Wrappers
  import opened EventLog
  import opened Merge
  import opened Tables
  import opened Flows
  import opened Routing
  import opened ReaderProtocol
  import Replay

  /** What one stored event does to the tables: nothing unless some leg claims it. */
  function ApplyEvent(flows: seq<Flow>, routes: Index, t: Tables, row: EventRow): Option<Tables> {
    if row.raw.topics == [] then Some(t)
    else
      var refs := Lookup(routes, RouteKey(row.chain, row.raw.address, row.raw.topics[0]));
      // An index holds legs of its own flows only.
      if ValidRefs(flows, refs) then ApplyLegs(flows, refs, t, row) else Some(t)
  }

  function ReaderOf(flows: seq<Flow>, routes: Index, chains: set<string>): Reader {
    Reader(chains, (t, row) => ApplyEvent(flows, routes, t, row), (t, w) => MergedPast(flows, t, w))
  }

  /**
   * An event goes to the legs that claim its chain, address and topic, each leg object once and in
   * definition order, and to no other; one without topics changes nothing.
   */
  lemma EventGoesToClaimants(flows: seq<Flow>, watches: seq<Watch>, routes: Index, t: Tables, row: EventRow)
      returns (refs: seq<LegRef>)
    requires Indexed(routes, flows, watches, AllLegs(flows))
    ensures ValidRefs(flows, refs) && ApplyEvent(flows, routes, t, row) == ApplyLegs(flows, refs, t, row)
    ensures row.raw.topics == [] ==> refs == []
    ensures row.raw.topics != [] ==>
      var key := RouteKey(row.chain, row.raw.address, row.raw.topics[0]);
      && InOrder(refs) && DistinctLegs(flows, refs)
      && (forall ref | ref in refs :: Claims(LegAt(flows, ref), watches, key))
      && (forall ref | ValidRef(flows, ref) && Claims(LegAt(flows, ref), watches, key) ::
            HoldsLeg(flows, refs, LegAt(flows, ref).id))
  {
    hide ApplyLegs, Claims, Indexed;
    refs := RefsFor(routes, row);
    if row.raw.topics == [] {
      EventWithoutLegs(flows, t, row);
    } else {
      ClaimantsListed(routes, flows, watches, RouteKey(row.chain, row.raw.address, row.raw.topics[0]));
    }
  }

  lemma ClaimantsListed(routes: Index, flows: seq<Flow>, watches: seq<Watch>, key: string)
    requires Indexed(routes, flows, watches, AllLegs(flows))
    ensures var refs := Lookup(routes, key);
      && ValidRefs(flows, refs) && InOrder(refs) && DistinctLegs(flows, refs)
      && (forall ref | ref in refs :: Claims(LegAt(flows, ref), watches, key))
      && (forall ref | ValidRef(flows, ref) && Claims(LegAt(flows, ref), watches, key) ::
            HoldsLeg(flows, refs, LegAt(flows, ref).id))
  {
    LegsOfFirstValid(flows, |flows|);
    ClaimingIsExact(flows, watches, AllLegs(flows), key);
    hide Claims, Claiming, InOrder, DistinctLegs, HoldsLeg;
    assert Lookup(routes, key) == Claiming(flows, watches, AllLegs(flows), key);
  }

  lemma EventWithoutLegs(flows: seq<Flow>, t: Tables, row: EventRow)
    ensures ApplyLegs(flows, [], t, row) == Some(t)
  {
  }

  // ---------- What no change undoes ----------

  /** An event that is applied only advances the tables. */
  lemma EventAdvances(flows: seq<Flow>, routes: Index, t: Tables, row: EventRow)
    requires DistinctNames(flows) && KeysOnlyRead(flows) && ApplyEvent(flows, routes, t, row).Some?
    ensures Advances(SchemasOf(flows), t, ApplyEvent(flows, routes, t, row).value)
  {
    if row.raw.topics != [] {
      var refs := Lookup(routes, RouteKey(row.chain, row.raw.address, row.raw.topics[0]));
      if ValidRefs(flows, refs) {
        LegsAdvance(flows, refs, t, row);
      }
    }
  }

  /** And so does a batch, event by event. */
  lemma {:induction false} EventsAdvance(
      flows: seq<Flow>, routes: Index, chains: set<string>, t: Tables, rows: seq<EventRow>)
    requires DistinctNames(flows) && KeysOnlyRead(flows)
    requires ApplyAll(ReaderOf(flows, routes, chains), t, rows).Some?
    ensures Advances(SchemasOf(flows), t, ApplyAll(ReaderOf(flows, routes, chains), t, rows).value)
  {
    hide Advances, KeysOnlyRead, ApplyEvent;
    var r := ReaderOf(flows, routes, chains);
    if rows == [] {
      AdvancesReflexive(SchemasOf(flows), t);
    } else {
      var n := |rows| - 1;
      EventsAdvance(flows, routes, chains, t, rows[..n]);
      var before := ApplyAll(r, t, rows[..n]).value;
      EventAdvances(flows, routes, before, rows[n]);
      AdvancesTransitive(SchemasOf(flows), t, before, ApplyAll(r, t, rows).value);
    }
  }

  lemma AdvancesReflexive(schemas: Schemas, t: Tables)
    ensures Advances(schemas, t, t)
  {
  }

  lemma MergeAdvances(flows: seq<Flow>, t: Tables, w: Write)
    requires DistinctNames(flows) && MergedPast(flows, t, w).Some?
    ensures Advances(SchemasOf(flows), t, MergedPast(flows, t, w).value)
  {
    hide Reconciled;
    var i := MergedPastIs(flows, t, w);
    ReconcileAdvances(flows, i, t, flows[i].keyColumn, w.id.key, w.contribution);
  }

  /** The step takes the row away: a rebuild, or a pruning of it. */
  predicate Removes(step: Step, id: RowId) {
    step.Rebuild? || (step.Prune? && id in step.ids)
  }

  lemma StepAdvances(flows: seq<Flow>, routes: Index, chains: set<string>, s: State, step: Step, id: RowId)
    requires DistinctNames(flows) && KeysOnlyRead(flows)
    requires Enabled(ReaderOf(flows, routes, chains), s, step) && id in s.tables && !Removes(step, id)
    ensures AdvancesAt(SchemaOf(SchemasOf(flows), id.flow), s.tables,
                       After(ReaderOf(flows, routes, chains), s, step).tables, id)
  {
    hide KeysOnlyRead, ApplyEvent, MergedPast;
    match step
    case MergeRow(w) => MergeAdvances(flows, s.tables, w);
    case CommitBatch => EventsAdvance(flows, routes, chains, s.tables, s.control.rows);
    case CommitRow => EventAdvances(flows, routes, s.tables, s.control.rows[0]);
    case _ =>
  }

  /**
   * From any moment of any run on, until a rebuild or a pruning takes it away, a row does not vanish, its
   * rank does not fall and no set column of it becomes NULL, whichever columns the legs key on and whoever
   * merges rows past them, if no key does more than look.
   */
  lemma {:induction false} RunOnlyAdvances(
      flows: seq<Flow>, routes: Index, chains: set<string>,
      states: seq<State>, steps: seq<Step>, i: nat, j: nat, id: RowId)
    requires DistinctNames(flows) && KeysOnlyRead(flows)
    requires ReaderProtocol.Run(ReaderOf(flows, routes, chains), states, steps) && i <= j < |states|
    requires id in states[i].tables && forall k | i <= k < j :: !Removes(steps[k], id)
    ensures AdvancesAt(SchemaOf(SchemasOf(flows), id.flow), states[i].tables, states[j].tables, id)
    decreases j
  {
    hide KeysOnlyRead, ReaderOf, Enabled, After;
    if i < j {
      RunOnlyAdvances(flows, routes, chains, states, steps, i, j - 1, id);
      StepAdvances(flows, routes, chains, states[j - 1], steps[j - 1], id);
    }
  }

  // ---------- The meaning of flows that commute ----------

  function RefsFor(routes: Index, row: EventRow): seq<LegRef> {
    if row.raw.topics == [] then []
    else Lookup(routes, RouteKey(row.chain, row.raw.address, row.raw.topics[0]))
  }

  /** What commutative flows make of an event, without looking at the tables. */
  function MeaningOf(flows: seq<Flow>, routes: Index): Replay.Meaning {
    Replay.Meaning(
      SchemasOf(flows),
      row => ValidRefs(flows, RefsFor(routes, row)) ==> LegsApplicable(flows, RefsFor(routes, row), row),
      row => if ValidRefs(flows, RefsFor(routes, row)) then LegsWrites(flows, RefsFor(routes, row), row) else [])
  }

  /**
   * The reader of flows whose legs key on the primary key is one whose drained tables are a function of
   * the store and of what was merged and pruned past it.
   */
  lemma CommutativeFlowsHaveMeaning(flows: seq<Flow>, routes: Index, chains: set<string>)
    requires Commutative(flows)
    ensures Replay.Means(ReaderOf(flows, routes, chains), MeaningOf(flows, routes))
  {
    var r, m := ReaderOf(flows, routes, chains), MeaningOf(flows, routes);
    forall t, row
      ensures r.apply(t, row) == if m.applicable(row) then Some(UpsertedAll(m.schemas, t, m.writes(row))) else None
    {
      if ValidRefs(flows, RefsFor(routes, row)) {
        LegsAreTheirWrites(flows, RefsFor(routes, row), t, row);
      }
    }
    forall t, w | r.merge(t, w).Some? ensures r.merge(t, w) == Some(Upserted(m.schemas, t, w)) {
      MergedPastIsItsWrite(flows, t, w);
    }
  }
}
