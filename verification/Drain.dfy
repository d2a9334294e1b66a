/**
 * The reader itself: the loops that take batches, apply them leg by leg inside a transaction, retry
 * row by row and park what still fails, and the nudges that start a pass. Every transaction extends a
 * run of the protocol, so what holds of all runs holds at every await of these methods.
 */
module Drain {
  import opened Wrappers
  import opened EventLog
  import opened Merge
  import opened Tables
  import opened Flows
  import opened Routing
  import opened ReaderProtocol
  import opened Readers
  import Passes
  import Replay

  /** What others do between two steps of the reader: ingest, pollers that merge rows, pruning, and nudges. */
  datatype Outside =
    | Ingests(source: string, event: RawEvent, number: int)
    | Merges(write: Write)
    | Prunes(ids: set<RowId>)
    | AsksRebuild
    | Nudges

  predicate ChangesTables(o: Outside) {
    o.Merges? || o.Prunes?
  }

  /** A step that gives up on a row does so on one that cannot be applied. */
  predicate RightlyGivesUp(r: Reader, s: State, step: Step) {
    GivesUp(s, step) ==> r.apply(s.tables, s.control.rows[0]).None?
  }

  /** The database as one reader sees it, and everything others are still going to do to it. */
  class Database {
    const reader: Reader
    var store: Store
    var cursors: map<string, int>
    var dead: set<Ref>
    var tables: Tables
    var rebuildAsked: bool
    var outside: seq<Outside>

    ghost var committed: seq<EventRow>
    ghost var changes: seq<Change>
    ghost var control: Control
    ghost var states: seq<State>
    ghost var steps: seq<Step>

    /** A reader that has not read anything yet. */
    constructor (reader: Reader, store: Store, outside: seq<Outside>)
      requires ValidStore(store)
      ensures Valid() && this.reader == reader && this.store == store && control.Idle? && steps == []
    {
      this.reader, this.store, this.outside := reader, store, outside;
      cursors, dead, tables, rebuildAsked := map[], {}, map[], false;
      committed, changes, control, steps := [], [], Idle, [];
      states := [State(store, map[], {}, map[], false, [], [], Idle)];
    }

    ghost function Now(): State
      reads this
    {
      State(store, cursors, dead, tables, rebuildAsked, committed, changes, control)
    }

    /** How far the reader has got on a chain. */
    method ReaderSeq(chain: string) returns (number: int)
      ensures number == Cursor(Now(), chain) == (if chain in cursors then cursors[chain] else 0)
    {
      number := if chain in cursors then cursors[chain] else 0;
    }

    /** The transactions so far are a run of the protocol. */
    ghost predicate History()
      reads this`states, this`steps
    {
      |states| == |steps| + 1 && ReaderProtocol.Run(reader, states, steps) && Initial(states[0])
    }

    /** A run that has got here. */
    ghost predicate Valid()
      reads this
    {
      |states| == |steps| + 1 && History() && states[|steps|] == Now()
    }

    /** No row was given up on that could have been applied. */
    ghost predicate Fair()
      reads this`states, this`steps
    {
      forall i | 0 <= i < |steps| && i < |states| :: RightlyGivesUp(reader, states[i], steps[i])
    }

    /** The run goes on from where it was, and as fairly. */
    ghost predicate Onward(was: seq<State>, did: seq<Step>, fair: bool)
      reads this`states, this`steps
    {
      was <= states && did <= steps && (fair ==> Fair())
    }

    /** The tables at some moment since the first `from` changes. */
    ghost predicate Had(t: Tables, from: nat)
      reads this`changes
    {
      exists n :: from <= n <= |changes| && ChangeAll(reader, map[], changes[..n]) == Some(t)
    }

    /** The tables are what all changes so far have made of empty ones. */
    lemma TablesOfChanges()
      requires Valid()
      ensures ChangeAll(reader, map[], changes) == Some(tables)
    {
      hide History;
      ValidInv();
    }

    lemma HadThen(t: Tables, from: nat, made: seq<Change>)
      requires from <= |made| && made <= changes && ChangeAll(reader, map[], made) == Some(t)
      ensures Had(t, from)
    {
      assert changes[..|made|] == made;
    }

    lemma ValidInv()
      requires Valid()
      ensures Inv(reader, Now())
    {
      RunKeepsInv(reader, states, steps, |steps|);
    }

    lemma LastState()
      requires Valid()
      ensures |states| == |steps| + 1 && states[|steps|] == Now()
    {
    }

    /** Enter the transaction just made into the run. */
    ghost method Record(step: Step)
      requires |states| == |steps| + 1 && History()
      requires Enabled(reader, states[|steps|], step) && Now() == After(reader, states[|steps|], step)
      modifies this`states, this`steps
      ensures Valid()
      ensures states == old(states) + [Now()] && steps == old(steps) + [step]
      ensures old(states) <= states && old(steps) <= steps
      ensures (old(Fair()) && RightlyGivesUp(reader, old(states)[|old(steps)|], step)) ==> Fair()
    {
      RunOneMore(reader, states, steps, step, Now());
      hide ReaderProtocol.Run, Enabled, After, RightlyGivesUp;
      ghost var were, did := states, steps;
      states, steps := states + [Now()], steps + [step];
      assert forall i | 0 <= i < |did| :: states[i] == were[i] && steps[i] == did[i];
    }

    /** The next thing another process does. */
    method NextOther() returns (nudged: bool)
      requires Valid() && outside != []
      modifies this
      ensures Valid() && OnlyOthers(old(Now()), |old(outside)|, Now(), |outside|) && |outside| < |old(outside)|
      ensures !ChangesTables(old(outside)[0]) ==> changes == old(changes)
      ensures Onward(old(states), old(steps), old(Fair()))
    {
      hide Inv, Seen, Extends, InsertedOne, Fair, History, Enabled, After, RightlyGivesUp;
      var next := outside[0];
      outside := outside[1..];
      nudged := next.Nudges?;
      ForwardReflexive(Now());
      match next
      case Ingests(source, event, number) =>
        if number > 0 && forall row | row in Log(store, source) :: row.number < number {
          InsertEvent(source, event, number);
        }
      case Merges(write) => MergeRow(write);
      case Prunes(ids) => PruneRows(ids);
      case AsksRebuild =>
        FileRebuild();
      case Nudges =>
    }

    /** A rebuild is asked for. */
    method FileRebuild()
      requires Valid()
      modifies this`rebuildAsked, this`states, this`steps
      ensures Valid() && OnlyOthers(old(Now()), |outside|, Now(), |outside|)
      ensures Now() == old(Now()).(rebuildAsked := true)
      ensures Onward(old(states), old(steps), old(Fair()))
    {
      hide Inv, Position, SameEvent, Fair, History;
      ForwardReflexive(Now());
      rebuildAsked := true;
      Record(AskRebuild);
    }

    /** `reconcile` on the pool, past the reader; an upsert that throws leaves everything as it is. */
    method MergeRow(write: Write)
      requires Valid()
      modifies this`tables, this`changes, this`states, this`steps
      ensures Valid() && OnlyOthers(old(Now()), |outside|, Now(), |outside|)
      ensures var to := reader.merge(old(tables), write);
              if to.Some? then tables == to.value && changes == old(changes) + [OfMerge(write)]
              else Now() == old(Now())
      ensures Onward(old(states), old(steps), old(Fair()))
    {
      hide Inv, Position, SameEvent, Fair, History;
      ForwardReflexive(Now());
      var to := reader.merge(tables, write);
      if to.Some? {
        tables, changes := to.value, changes + [OfMerge(write)];
        Record(Step.MergeRow(write));
      }
    }

    /** A DELETE of some rows, past the reader. */
    method PruneRows(ids: set<RowId>)
      requires Valid()
      modifies this`tables, this`changes, this`states, this`steps
      ensures Valid() && OnlyOthers(old(Now()), |outside|, Now(), |outside|)
      ensures tables == old(tables) - ids && changes == old(changes) + [OfPrune(ids)]
      ensures Onward(old(states), old(steps), old(Fair()))
    {
      hide Inv, Position, SameEvent, Fair, History;
      ForwardReflexive(Now());
      tables, changes := tables - ids, changes + [OfPrune(ids)];
      Record(Step.Prune(ids));
    }

    /** One `INSERT ... ON CONFLICT` of ingest's. */
    method InsertEvent(source: string, event: RawEvent, number: int)
      requires Valid() && number > 0 && forall row | row in Log(store, source) :: row.number < number
      modifies this`store, this`states, this`steps
      ensures Valid() && Forward(old(Now()), Now()) && Onward(old(states), old(steps), old(Fair()))
      ensures forall c :: |Log(store, c)| <= |Log(old(store), c)| + 1 && Seen(Now(), c) == old(Seen(Now(), c))
      ensures store == old(store)[source := InsertedOne(Log(old(store), source), source, event, number)]
    {
      ValidInv();
      ghost var step := Ingest(source, event, number);
      StepGoesForward(reader, Now(), step);
      hide Position, SameEvent, Inv, Fair, History, IndexOf;
      store := store[source := InsertedOne(Log(store, source), source, event, number)];
      Record(step);
    }

    /**
     * Write a batch of logs and say how many were new. The count is of rows the statements touched, which
     * is how many were new exactly when no event brings an extrinsic to a row that lacks one.
     */
    method InsertEvents(chain: string, events: seq<RawEvent>, numbers: seq<int>) returns (inserted: nat)
      requires Valid() && |numbers| == |events|
      requires NumbersAhead(Log(store, chain), numbers, 0)
      modifies this
      ensures Valid()
      ensures Log(store, chain) == InsertedAll(Log(old(store), chain), chain, events, numbers)
      ensures inserted == Touched(Log(old(store), chain), chain, events, numbers)
      ensures var growth := |Log(store, chain)| - |Log(old(store), chain)|;
        && inserted >= growth
        && (inserted == growth <==>
              forall i | 0 <= i < |events| :: !BringsExtrinsic(Log(old(store), chain), events, i))
    {
      inserted := 0;
      ghost var log := Log(store, chain);
      for i := 0 to |events|
        invariant Valid()
        invariant Log(store, chain) == InsertedAll(log, chain, events[..i], numbers[..i])
        invariant inserted == Touched(log, chain, events[..i], numbers[..i])
        invariant NumbersAhead(Log(store, chain), numbers, i)
      {
        BatchByOneMore(log, chain, events, numbers, i);
        InsertedNumbers(Log(store, chain), chain, events[i], numbers, i);
        var effect := EffectOf(Log(store, chain), events[i]);
        InsertEvent(chain, events[i], numbers[i]);
        if effect != Ignored {
          inserted := inserted + 1;
        }
      }
      assert events[..|events|] == events && numbers[..|events|] == numbers;
      TouchedIsGrowthIff(log, chain, events, numbers);
    }

    /** What is being tried: the batch in memory, or the first of the rows being retried one by one. */
    ghost predicate Trying(chain: string, rows: seq<EventRow>)
      reads this
    {
      && rows != []
      && if control.EachRow? then control.chain == chain && control.rows != [] && rows == [control.rows[0]]
         else control == Batch(chain, rows)
    }

    /** COMMIT: the tables and the cursor move together. */
    method Commit(chain: string, rows: seq<EventRow>, filled: Tables)
      requires Valid() && Trying(chain, rows) && ApplyAll(reader, tables, rows) == Some(filled)
      modifies this`tables, this`cursors, this`committed, this`changes, this`control, this`states, this`steps
      ensures Valid() && Advanced(old(Now()), |outside|, Now(), |outside|)
      ensures Seen(Now(), chain) == old(Seen(Now(), chain)) + |rows|
      ensures control == AfterCommit(old(control)) && tables == filled
      ensures committed == old(committed) + rows && changes == old(changes) + OfEvents(rows)
      ensures Onward(old(states), old(steps), old(Fair()))
    {
      hide Inv, Fair, History, Seen, AfterCommit, OfEvents, ApplyAll, Advanced, Enabled, After, RightlyGivesUp;
      ValidInv();
      ghost var step := if control.Batch? then CommitBatch else CommitRow;
      CommitIsStep(reader, Now(), |outside|, rows);
      tables, cursors := filled, cursors[chain := rows[|rows| - 1].number];
      committed, changes, control := committed + rows, changes + OfEvents(rows), AfterCommit(control);
      CommitIsRight(reader, old(Now()), step);
      Record(step);
    }

    /** ROLLBACK, or a COMMIT that failed: nothing is written. */
    method RollBack(chain: string, rows: seq<EventRow>)
      requires Valid() && Trying(chain, rows)
      modifies this`control, this`states, this`steps
      ensures Valid() && Advanced(old(Now()), |outside|, Now(), |outside|)
      ensures control == AfterFailure(old(control))
      ensures Onward(old(states), old(steps), old(Fair()) && ApplyAll(reader, tables, rows).None?)
    {
      hide Inv, Position, SameEvent, InsertedOne, Fair, History;
      ValidInv();
      ghost var step := if control.Batch? then FailBatch else FailRow;
      StepGoesForward(reader, Now(), step);
      OneRowFails(reader, tables, rows);
      control := AfterFailure(control);
      Record(step);
    }

    /** Unseen events, oldest first; the rows are now in the reader's memory. */
    method TakeRows(chain: string, from: int) returns (rows: seq<EventRow>)
      requires Valid() && control.Idle? && chain in reader.chains && from == Cursor(Now(), chain)
      modifies this`control, this`states, this`steps
      ensures Valid() && Advanced(old(Now()), |outside|, Now(), |outside|)
      ensures rows == [] ==> control.Idle? && Seen(Now(), chain) == |Log(store, chain)|
      ensures rows != [] ==> control == Batch(chain, rows) && |rows| <= 500
      ensures Onward(old(states), old(steps), old(Fair()))
    {
      hide Position, SameEvent, InsertedOne, Fair, History;
      ValidInv();
      StepGoesForward(reader, Now(), Take(chain));
      TakenAreNext(Now(), chain);
      rows := TakeEvents(Log(store, chain), from, BATCH);
      control := if rows == [] then Idle else Batch(chain, rows);
      Record(Take(chain));
    }

    /** Park the event that keeps failing. */
    method DeadLetter(row: EventRow)
      requires Valid() && control.Failed? && control.rows != [] && row == control.rows[0]
      modifies this`dead, this`control, this`states, this`steps
      ensures Valid() && Advanced(old(Now()), |outside|, Now(), |outside|)
      ensures RefOf(row) in dead && control == Parked(old(control).chain, old(control).rows)
      ensures Onward(old(states), old(steps), old(Fair()))
    {
      hide Inv, Position, SameEvent, InsertedOne, Fair, History;
      ValidInv();
      StepGoesForward(reader, Now(), Park);
      dead, control := dead + {RefOf(row)}, Parked(control.chain, control.rows);
      Record(Park);
    }

    /** Step over a parked event. */
    method AdvanceReader(chain: string, number: int)
      requires Valid() && control.Parked? && control.rows != []
      requires chain == control.chain && number == control.rows[0].number
      modifies this`cursors, this`control, this`states, this`steps
      ensures Valid() && Advanced(old(Now()), |outside|, Now(), |outside|)
      ensures Seen(Now(), chain) == old(Seen(Now(), chain)) + 1
      ensures control == NextRow(chain, old(control).rows)
      ensures Onward(old(states), old(steps), old(Fair()))
    {
      hide Inv, Position, SameEvent, InsertedOne, Fair, History;
      ValidInv();
      StepGoesForward(reader, Now(), StepOver);
      cursors, control := cursors[chain := number], NextRow(chain, control.rows);
      Record(StepOver);
    }

    /** Forget what is in memory: a throw, or the process dying. */
    method Abandon()
      requires Valid()
      modifies this`control, this`states, this`steps
      ensures Valid() && Advanced(old(Now()), |outside|, Now(), |outside|) && control.Idle?
      ensures Onward(old(states), old(steps), old(Fair()))
    {
      hide Inv, Position, SameEvent, InsertedOne, Fair, History;
      ValidInv();
      StepGoesForward(reader, Now(), Step.Abandon);
      control := Idle;
      Record(Step.Abandon);
    }

    /** Empty the tables, drop progress and parked events, if a rebuild was asked for. */
    method ApplyRebuild() returns (rebuilt: bool)
      requires Valid() && control.Idle?
      modifies this`tables, this`cursors, this`dead, this`rebuildAsked, this`committed, this`changes
      modifies this`states, this`steps
      ensures Valid() && control.Idle?
      ensures rebuilt == old(rebuildAsked) && !rebuildAsked
      ensures Onward(old(states), old(steps), old(Fair()))
      ensures rebuilt ==> steps == old(steps) + [Step.Rebuild]
      ensures if rebuilt then tables == map[] && cursors == map[] && dead == {} && changes == []
              else Now() == old(Now()) && steps == old(steps)
    {
      hide Fair, Seen;
      rebuilt := rebuildAsked;
      if rebuilt {
        tables, cursors, dead, rebuildAsked := map[], map[], {}, false;
        committed, changes := [], [];
        Record(Step.Rebuild);
      }
    }
  }

  /** A store and what it was earlier. */
  ghost predicate Grew(earlier: Store, later: Store) {
    forall c :: Extends(Log(earlier, c), Log(later, c))
  }

  lemma GrewReflexive(store: Store)
    ensures Grew(store, store)
  {
  }

  lemma GrewTransitive(a: Store, b: Store, c: Store)
    requires Grew(a, b) && Grew(b, c)
    ensures Grew(a, c)
  {
    forall d ensures Extends(Log(a, d), Log(c, d)) {
      ExtendsTransitive(Log(a, d), Log(b, d), Log(c, d));
    }
  }

  /**
   * What an await may change: logs grow, rows are merged and pruned past the reader, a rebuild is asked
   * for, at the expense of what is left to do.
   */
  ghost predicate OnlyOthers(s: State, left: nat, t: State, leftNow: nat) {
    && t == s.(store := t.store, rebuildAsked := t.rebuildAsked, tables := t.tables, changes := t.changes)
    && (s.rebuildAsked ==> t.rebuildAsked)
    && s.changes <= t.changes && (s.changes == t.changes ==> s.tables == t.tables)
    && Forward(s, t)
    && (forall c :: Seen(t, c) == Seen(s, c))
    && leftNow <= left
    && forall c :: leftNow + |Log(t.store, c)| <= left + |Log(s.store, c)|
  }

  /** What any stretch of the reader's work may change outside a rebuild. */
  ghost predicate Advanced(s: State, left: nat, t: State, leftNow: nat) {
    && Forward(s, t)
    && s.changes <= t.changes
    && leftNow <= left
    && forall c :: leftNow + |Log(t.store, c)| <= left + |Log(s.store, c)|
  }

  /** Committing what is being tried is a step of the protocol. */
  lemma CommitIsStep(r: Reader, s: State, left: nat, rows: seq<EventRow>)
    requires Inv(r, s) && rows != [] && ApplyAll(r, s.tables, rows).Some?
    requires if s.control.EachRow? then s.control.rows != [] && rows == [s.control.rows[0]]
             else s.control.Batch? && s.control.rows == rows
    ensures var step := if s.control.Batch? then CommitBatch else CommitRow;
            var c := s.control.chain;
            var t := Committing(r, s, c, rows, AfterCommit(s.control));
            && Enabled(r, s, step) && After(r, s, step) == t
            && Advanced(s, left, t, left) && Seen(t, c) == Seen(s, c) + |rows|
  {
    hide Inv, Position, SameEvent;
    assert [rows[0]][..0] == [] && OfEvents([rows[0]]) == [OfEvent(rows[0])];
    StepGoesForward(r, s, if s.control.Batch? then CommitBatch else CommitRow);
  }

  /** A commit is not a giving up. */
  lemma CommitIsRight(r: Reader, s: State, step: Step)
    requires step.CommitBatch? || step.CommitRow?
    ensures RightlyGivesUp(r, s, step)
  {
  }

  /** Rows of which some first ones cannot be applied cannot. */
  lemma {:induction false} RowFails(r: Reader, t: Tables, rows: seq<EventRow>, i: nat)
    requires i <= |rows| && ApplyAll(r, t, rows[..i]).None?
    ensures ApplyAll(r, t, rows).None?
    decreases |rows| - i
  {
    if i < |rows| {
      assert rows[..i + 1][..i] == rows[..i];
      RowFails(r, t, rows, i + 1);
    } else {
      assert rows[..i] == rows;
    }
  }

  /** A single row that cannot be applied after no others cannot be applied. */
  lemma OneRowFails(r: Reader, t: Tables, rows: seq<EventRow>)
    requires rows != []
    ensures |rows| == 1 ==> ApplyAll(r, t, rows) == r.apply(t, rows[0])
  {
    assert |rows| == 1 ==> rows[..0] == [] && ApplyAll(r, t, rows[..0]) == Some(t);
  }

  lemma AdvancedTransitive(a: State, i: nat, b: State, j: nat, c: State, k: nat)
    requires Advanced(a, i, b, j) && Advanced(b, j, c, k)
    ensures Advanced(a, i, c, k)
  {
    ForwardTransitive(a, b, c);
    forall d ensures k + |Log(c.store, d)| <= i + |Log(a.store, d)| {
      assert j + |Log(b.store, d)| <= i + |Log(a.store, d)|;
    }
  }

  lemma OnlyOthersTransitive(a: State, i: nat, b: State, j: nat, c: State, k: nat)
    requires OnlyOthers(a, i, b, j) && OnlyOthers(b, j, c, k)
    ensures OnlyOthers(a, i, c, k)
  {
    ForwardTransitive(a, b, c);
    forall d ensures k + |Log(c.store, d)| <= i + |Log(a.store, d)| {
      assert j + |Log(b.store, d)| <= i + |Log(a.store, d)|;
    }
  }

  lemma ForwardReflexive(s: State)
    ensures Forward(s, s)
  {
  }

  /** The numbers from the `i`-th on are above every row and each other: what a sequence hands out. */
  ghost predicate NumbersAhead(log: seq<EventRow>, numbers: seq<int>, i: nat) {
    && (forall k, row | i <= k < |numbers| && row in log :: row.number < numbers[k])
    && (forall k | i <= k < |numbers| :: numbers[k] > 0)
    && (forall j, k | i <= j < k < |numbers| :: numbers[j] < numbers[k])
  }

  lemma InsertedNumbers(log: seq<EventRow>, chain: string, e: RawEvent, numbers: seq<int>, i: nat)
    requires i < |numbers| && NumbersAhead(log, numbers, i)
    ensures NumbersAhead(InsertedOne(log, chain, e, numbers[i]), numbers, i + 1)
  {
    var after := InsertedOne(log, chain, e, numbers[i]);
    forall k, row | i < k < |numbers| && row in after ensures row.number < numbers[k] {
      var j :| 0 <= j < |after| && after[j] == row;
      if j < |log| {
        assert log[j] in log && log[j].number == row.number;
      }
    }
  }

  /** A nudge that arrived during a pass: its place in the log, and the store and the transactions so far. */
  datatype Nudge = Nudge(mark: nat, store: Store, at: nat)

  /** A moment in a reader's life. */
  datatype Moment = Moment(
    state: State, left: nat, states: seq<State>, steps: seq<Step>,
    failures: nat, nudges: seq<Nudge>, passes: Passes.State)

  /**
   * What any stretch of a pass leaves in place: histories go on, the pass stays where it is, and a nudge
   * since is one of the others' moves, recorded, and asks for another pass.
   */
  ghost predicate Kept(m: Moment, n: Moment) {
    && n.left <= m.left
    && m.states <= n.states && m.steps <= n.steps && m.failures <= n.failures && m.nudges <= n.nudges
    && n.passes.running == m.passes.running && m.passes.log <= n.passes.log
    && (m.passes.again ==> n.passes.again)
    && (n.passes.again ==> m.passes.again || n.left < m.left)
    && (!n.passes.again ==> n.nudges == m.nudges)
  }

  /** A stretch without a rebuild: logs grow and no cursor goes back. */
  ghost predicate Went(m: Moment, n: Moment) {
    Kept(m, n) && Advanced(m.state, m.left, n.state, n.left)
  }

  /** A stretch that does nothing but wait. */
  ghost predicate Waited(m: Moment, n: Moment) {
    Kept(m, n) && OnlyOthers(m.state, m.left, n.state, n.left)
  }

  /** Changes since: of others first, and the events of one transaction last. */
  ghost predicate EndsIn(was: seq<Change>, now: seq<Change>, rows: seq<EventRow>) {
    && |was| + |rows| <= |now| && was <= now
    && now[|now| - |rows|..] == OfEvents(rows)
  }

  lemma KeptTransitive(a: Moment, b: Moment, c: Moment)
    requires Kept(a, b) && Kept(b, c)
    ensures Kept(a, c)
  {
  }

  lemma WentTransitive(a: Moment, b: Moment, c: Moment)
    requires Went(a, b) && Went(b, c)
    ensures Went(a, c) && b.failures <= c.failures
    ensures forall d :: Seen(b.state, d) <= Seen(c.state, d)
  {
    AdvancedTransitive(a.state, a.left, b.state, b.left, c.state, c.left);
  }

  lemma WaitedTransitive(a: Moment, b: Moment, c: Moment)
    requires Waited(a, b) && Waited(b, c)
    ensures Waited(a, c)
  {
    OnlyOthersTransitive(a.state, a.left, b.state, b.left, c.state, c.left);
  }

  lemma WaitedIsWent(m: Moment, n: Moment)
    requires Waited(m, n)
    ensures Went(m, n) && m.failures <= n.failures
    ensures n.state == m.state.(store := n.state.store, rebuildAsked := n.state.rebuildAsked,
                                tables := n.state.tables, changes := n.state.changes)
    ensures m.state.changes <= n.state.changes
    ensures n.state.changes == m.state.changes ==> n.state.tables == m.state.tables
    ensures forall d :: Seen(m.state, d) == Seen(n.state, d)
  {
    hide Position, SameEvent;
  }

  /** A call fails and nothing else happens. */
  lemma JustFailed(m: Moment, n: Moment)
    requires n == m.(failures := n.failures) && m.failures <= n.failures
    ensures Went(m, n)
  {
    NoTimePasses(m);
  }

  /** One transaction of the reader, or a call that failed beside it. */
  lemma Transacted(m: Moment, n: Moment)
    requires n == m.(state := n.state, states := n.states, steps := n.steps, failures := n.failures)
    requires m.states <= n.states && m.steps <= n.steps && m.failures <= n.failures
    requires Advanced(m.state, m.left, n.state, n.left)
    ensures Went(m, n)
  {
    hide Advanced;
  }

  lemma NoTimePasses(m: Moment)
    ensures Waited(m, m)
  {
    ForwardReflexive(m.state);
  }

  /** Reads the event store and merges each event into the flows that claim it. */
  class Drain {
    const flows: seq<Flow>
    const routes: Index
    const chains: seq<string>
    const db: Database
    var busy: bool
    var again: bool

    /** Nudges, passes, visits of chains and ends of passes, in order, with the run that is suspended. */
    ghost var passes: Passes.State

    /** How many calls have failed for reasons of their own: a lost connection, a restart. */
    ghost var failures: nat

    ghost var nudges: seq<Nudge>

    /** The store as it stood when the latest pass began. */
    ghost var began: Store

    constructor (flows: seq<Flow>, watches: seq<Watch>, store: Store, outside: seq<Outside>)
      requires ValidStore(store)
      ensures Valid() && fresh(db) && !busy && db.control.Idle? && db.store == store
      ensures passes == Passes.Initial() && failures == 0
      ensures Indexed(routes, flows, watches, AllLegs(flows))
      ensures ReadsChains(flows, watches, AllLegs(flows), chains)
    {
      var router := new Router(flows, watches);
      var reader := ReaderOf(flows, router.routes, set c | c in router.chains);
      var database := new Database(reader, store, outside);
      this.flows, routes, chains, db := flows, router.routes, router.chains, database;
      busy, again := false, false;
      passes, failures, nudges, began := Passes.Initial(), 0, [], store;
      Passes.InitialInv(|router.chains|);
    }

    /** The passes so far are sound, and rows were only given up on when a call failed or they cannot be applied. */
    ghost predicate Valid()
      reads this, db
    {
      && db.Valid()
      && db.reader == ReaderOf(flows, routes, set c | c in chains)
      && (failures == 0 ==> db.Fair())
      && Passes.Inv(passes, |chains|) && passes.busy == busy && passes.again == again
      && NudgesStored()
    }

    ghost predicate NudgesStored()
      reads this`nudges, db
    {
      forall k | 0 <= k < |nudges| :: Grew(nudges[k].store, db.store) && nudges[k].at <= |db.steps|
    }

    ghost function Now(): Moment
      reads this, db
    {
      Moment(db.Now(), |db.outside|, db.states, db.steps, failures, nudges, passes)
    }

    /** A call that may fail for reasons of its own. */
    method Fails() returns (b: bool)
      requires Valid()
      modifies this`failures
      ensures Valid() && failures == old(failures) + (if b then 1 else 0)
    {
      b := *;
      if b {
        failures := failures + 1;
      }
    }

    /** `trigger`, up to where it calls `run`: a run already busy is asked to go round again. */
    method Nudged() returns (starts: bool)
      requires Valid()
      modifies this`again, this`nudges, this`passes
      ensures Valid() && starts == !busy
      ensures !busy ==> again == old(again) && nudges == old(nudges) && passes == old(passes)
      ensures busy ==>
                && again && passes == Passes.Triggering(old(passes))
                && nudges == old(nudges) + [Nudge(|old(passes.log)|, db.store, |db.steps|)]
    {
      hide Passes.Inv, Database.History, Database.Fair, Position, SameEvent, ReaderOf;
      starts := !busy;
      if busy {
        GrewReflexive(db.store);
        again := true;
        Passes.StepKeepsInv(passes, Passes.Trigger, |chains|);
        nudges := nudges + [Nudge(|passes.log|, db.store, |db.steps|)];
        passes := Passes.Triggering(passes);
      }
    }

    /**
     * One await inside a pass: the others move on, and a nudge of theirs arrives through `trigger`. While a
     * transaction of the reader's is open, what merges or prunes rows has come before it or comes after.
     */
    method Pause(open: bool)
      requires Valid() && busy
      modifies db, this`again, this`nudges, this`passes
      ensures Valid() && Waited(old(Now()), Now())
      ensures open ==> db.changes == old(db.changes)
    {
      hide Passes.Inv, Database.History, Database.Fair, Position, SameEvent, ReaderOf;
      var n: nat := *;
      NoTimePasses(Now());
      while n > 0 && db.outside != [] && !(open && ChangesTables(db.outside[0]))
        invariant Valid() && Waited(old(Now()), Now())
        invariant open ==> db.changes == old(db.changes)
        decreases n
      {
        n := n - 1;
        ghost var mid := Now();
        Move();
        WaitedTransitive(old(Now()), mid, Now());
      }
    }

    /** The next thing another process does, and the nudge it may be. */
    method Move()
      requires Valid() && busy && db.outside != []
      modifies db, this`again, this`nudges, this`passes
      ensures Valid() && Waited(old(Now()), Now())
      ensures !ChangesTables(old(db.outside)[0]) ==> db.changes == old(db.changes)
    {
      hide Passes.Inv, Database.History, Database.Fair, Position, SameEvent, ReaderOf;
      ghost var was := db.store;
      var nudged := db.NextOther();
      forall k | 0 <= k < |nudges| ensures Grew(nudges[k].store, db.store) {
        GrewTransitive(nudges[k].store, was, db.store);
      }
      if nudged {
        var starts := Nudged();
      }
    }

    /** Route one event to every leg that claims it, on the transaction's client. */
    method Apply(client: Client, row: EventRow) returns (ok: bool)
      modifies client
      ensures var to := ApplyEvent(flows, routes, old(client.tables), row);
              ok == to.Some? && (ok ==> client.tables == to.value)
    {
      if row.raw.topics == [] {
        return true;
      }
      var refs := Lookup(routes, RouteKey(row.chain, row.raw.address, row.raw.topics[0]));
      if !ValidRefs(flows, refs) {
        return true;
      }
      for i := 0 to |refs|
        invariant ApplyLegs(flows, refs[..i], old(client.tables), row) == Some(client.tables)
      {
        LegsOneMore(flows, refs, i, old(client.tables), row);
        ok := ApplyOne(client, flows[refs[i].flow], LegAt(flows, refs[i]), row);
        if !ok {
          LegsFail(flows, refs, i + 1, old(client.tables), row);
          return;
        }
      }
      assert refs[..|refs|] == refs;
      ok := true;
    }

    /** One leg's contribution, if the event is one of its own. */
    method ApplyOne(client: Client, f: Flow, leg: Leg, row: EventRow) returns (ok: bool)
      modifies client
      ensures var to := ApplyLeg(f, leg, old(client.tables), row);
              ok == to.Some? && (ok ==> client.tables == to.value)
    {
      var outcome := client.KeyOf(leg, row);
      match outcome
      case Throws => return false;
      case NotOurs => return true;
      case Keyed(key) =>
        var patch := leg.patch(row);
        if patch.None? {
          return false;
        }
        var keyBy := if leg.keyBy.Some? then leg.keyBy.value else f.keyColumn;
        var applied := client.Reconcile(f, keyBy, key, leg.state, patch.value);
        ok := applied.Ok?;
    }

    /** Apply one row on a transaction's client, unless it throws or the call is lost. */
    method ApplyRow(client: Client, row: EventRow) returns (ok: bool)
      requires Valid() && busy
      modifies db, client, this`again, this`nudges, this`passes, this`failures
      ensures Valid() && Waited(old(Now()), Now())
      ensures db.changes == old(db.changes) && db.tables == old(db.tables)
      ensures ok ==> db.reader.apply(old(client.tables), row) == Some(client.tables)
      ensures !ok ==> failures > old(failures) || db.reader.apply(old(client.tables), row).None?
    {
      hide Passes.Inv, Database.History, Database.Fair, Position, SameEvent, ApplyEvent;
      Pause(true);
      var lost := Fails();
      if lost {
        return false;
      }
      ok := Apply(client, row);
    }

    /** Apply rows one after the other on a transaction's client, until one throws or the call is lost. */
    method ApplyRows(client: Client, rows: seq<EventRow>) returns (ok: bool)
      requires Valid() && busy && client.tables == db.tables
      modifies db, client, this`again, this`nudges, this`passes, this`failures
      ensures Valid() && Waited(old(Now()), Now())
      ensures db.changes == old(db.changes) && db.tables == old(db.tables)
      ensures ok ==> ApplyAll(db.reader, db.tables, rows) == Some(client.tables)
      ensures !ok ==> failures > old(failures) || ApplyAll(db.reader, db.tables, rows).None?
    {
      hide Passes.Inv, Database.History, Database.Fair, Position, SameEvent, ReaderOf, Kept, OnlyOthers, Seen;
      NoTimePasses(Now());
      for i := 0 to |rows|
        invariant Valid() && Waited(old(Now()), Now()) && failures >= old(failures)
        invariant db.changes == old(db.changes) && db.tables == old(db.tables)
        invariant ApplyAll(db.reader, db.tables, rows[..i]) == Some(client.tables)
      {
        ghost var mid := Now();
        ApplyOneMore(db.reader, db.tables, rows, i);
        var applied := ApplyRow(client, rows[i]);
        WaitedTransitive(old(Now()), mid, Now());
        WaitedIsWent(mid, Now());
        if !applied {
          if failures == mid.failures {
            RowFails(db.reader, db.tables, rows, i + 1);
          }
          return false;
        }
      }
      assert rows[..|rows|] == rows;
      ok := true;
    }

    /**
     * Apply rows in one transaction and move the cursor with them. On any failure nothing is written
     * and the caller is told so; and only a call that failed or a row that cannot be applied is one.
     */
    method ApplyBatch(chain: string, rows: seq<EventRow>) returns (ok: bool)
      requires Valid() && busy && db.Trying(chain, rows)
      modifies db, this`again, this`nudges, this`passes, this`failures
      ensures Valid() && Went(old(Now()), Now())
      ensures db.control == if ok then AfterCommit(old(db.control)) else AfterFailure(old(db.control))
      ensures db.committed == old(db.committed) + if ok then rows else []
      ensures ok ==> Seen(db.Now(), chain) == old(Seen(db.Now(), chain)) + |rows|
      ensures ok ==> EndsIn(old(db.changes), db.changes, rows)
      ensures !ok ==> failures > old(failures) || ApplyAll(db.reader, db.tables, rows).None?
    {
      hide Kept, Went, Waited, Advanced, OnlyOthers, Forward, ApplyAll;
      hide Passes.Inv, Database.History, Database.Fair, Position, SameEvent, ReaderOf;
      Pause(false);
      ghost var mid := Now();
      WaitedIsWent(old(Now()), mid);
      ok := Transact(chain, rows);
      WentTransitive(old(Now()), mid, Now());
    }

    /** From BEGIN to COMMIT or ROLLBACK: all the rows and the cursor, or nothing. */
    method Transact(chain: string, rows: seq<EventRow>) returns (ok: bool)
      requires Valid() && busy && db.Trying(chain, rows)
      modifies db, this`again, this`nudges, this`passes, this`failures
      ensures Valid() && Went(old(Now()), Now())
      ensures db.control == if ok then AfterCommit(old(db.control)) else AfterFailure(old(db.control))
      ensures db.committed == old(db.committed) + if ok then rows else []
      ensures db.changes == old(db.changes) + if ok then OfEvents(rows) else []
      ensures ok ==> Seen(db.Now(), chain) == old(Seen(db.Now(), chain)) + |rows|
      ensures ok ==> ApplyAll(db.reader, old(db.tables), rows) == Some(db.tables)
      ensures !ok ==> db.tables == old(db.tables)
      ensures !ok ==> failures > old(failures) || ApplyAll(db.reader, db.tables, rows).None?
    {
      hide Kept, Went, Waited, Advanced, OnlyOthers, Forward, ApplyAll, OfEvents, Seen, AfterCommit, AfterFailure;
      hide Passes.Inv, Database.History, Database.Fair, Position, SameEvent, ReaderOf;
      var client := new Client(db.tables);
      ok := ApplyRows(client, rows);
      ghost var mid := Now();
      WaitedIsWent(old(Now()), mid);
      var lost := Fails();
      if lost || !ok {
        ok := false;
        db.RollBack(chain, rows);
      } else {
        db.Commit(chain, rows, client.tables);
      }
      Transacted(mid, Now());
      WentTransitive(old(Now()), mid, Now());
    }

    /** Up to `ROW_ATTEMPTS` tries at one row; afterwards it is committed, or failed for good. */
    method TryRow(chain: string, rows: seq<EventRow>) returns (ok: bool)
      requires Valid() && busy && rows != [] && db.control == EachRow(chain, rows, 0)
      modifies db, this`again, this`nudges, this`passes, this`failures
      ensures Valid() && Went(old(Now()), Now())
      ensures ok ==> db.control == NextRow(chain, rows) && Seen(db.Now(), chain) >= old(Seen(db.Now(), chain)) + 1
      ensures ok ==> db.committed == old(db.committed) + [rows[0]] && EndsIn(old(db.changes), db.changes, [rows[0]])
      ensures !ok ==> db.control == Failed(chain, rows) && db.committed == old(db.committed)
      ensures !ok ==> failures > old(failures) || db.reader.apply(db.tables, rows[0]).None?
    {
      hide Passes.Inv, Database.History, Database.Fair, Position, SameEvent, ReaderOf;
      NoTimePasses(Now());
      WaitedIsWent(Now(), Now());
      ok := false;
      var attempt := 0;
      while attempt < ROW_ATTEMPTS && !ok
        invariant Valid() && Went(old(Now()), Now())
        invariant attempt <= ROW_ATTEMPTS
        invariant ok ==> db.control == NextRow(chain, rows) && Seen(db.Now(), chain) >= old(Seen(db.Now(), chain)) + 1
        invariant ok ==> db.committed == old(db.committed) + [rows[0]]
        invariant ok ==> EndsIn(old(db.changes), db.changes, [rows[0]])
        invariant !ok ==> db.control ==
                            if attempt < ROW_ATTEMPTS then EachRow(chain, rows, attempt) else Failed(chain, rows)
        invariant !ok ==> db.committed == old(db.committed)
        invariant attempt > 0 && !ok ==> failures > old(failures) || db.reader.apply(db.tables, rows[0]).None?
        decreases ROW_ATTEMPTS - attempt
      {
        ghost var mid := Now();
        ok := ApplyBatch(chain, [rows[0]]);
        OneRowFails(db.reader, db.tables, [rows[0]]);
        WentTransitive(old(Now()), mid, Now());
        attempt := attempt + 1;
      }
    }

    /** One row of a failed batch: tried, and parked and stepped over if it keeps failing. */
    method OneRow(chain: string, rows: seq<EventRow>) returns (threw: bool)
      requires Valid() && busy && rows != [] && db.control == EachRow(chain, rows, 0)
      modifies db, this`again, this`nudges, this`passes, this`failures
      ensures Valid() && Went(old(Now()), Now())
      ensures threw ==> db.control.Idle? && failures > old(failures)
      ensures !threw ==> db.control == NextRow(chain, rows) && Seen(db.Now(), chain) >= old(Seen(db.Now(), chain)) + 1
      ensures db.committed == old(db.committed) + [rows[0]] || db.committed == old(db.committed)
      ensures db.committed == old(db.committed) && failures == old(failures) ==>
                && RefOf(rows[0]) in db.dead
                && exists t :: db.Had(t, |old(db.changes)|) && db.reader.apply(t, rows[0]).None?
    {
      hide Passes.Inv, Database.History, Database.Fair, Position, SameEvent, ReaderOf, ChangeAll, Database.Had;
      threw := false;
      var ok := TryRow(chain, rows);
      if !ok {
        ghost var mid, tried, made := Now(), db.tables, db.changes;
        db.TablesOfChanges();
        threw := RecordFailure(rows);
        WentTransitive(old(Now()), mid, Now());
        if !threw {
          mid := Now();
          threw := SkipRow(chain, rows);
          WentTransitive(old(Now()), mid, Now());
        }
        db.HadThen(tried, |old(db.changes)|, made);
      }
    }

    method RecordFailure(rows: seq<EventRow>) returns (threw: bool)
      requires Valid() && busy && rows != [] && db.control.Failed? && db.control.rows == rows
      modifies db, this`again, this`nudges, this`passes, this`failures
      ensures Valid() && Went(old(Now()), Now()) && db.committed == old(db.committed)
      ensures threw ==> failures > old(failures)
      ensures db.control == if threw then Idle else Parked(old(db.control).chain, rows)
      ensures !threw ==> RefOf(rows[0]) in db.dead
    {
      hide Kept, Went, Waited, Advanced, OnlyOthers, Forward;
      hide Passes.Inv, Database.History, Database.Fair, Position, SameEvent, ReaderOf;
      Pause(false);
      ghost var mid := Now();
      WaitedIsWent(old(Now()), mid);
      threw := Fails();
      if threw {
        db.Abandon();
      } else {
        db.DeadLetter(rows[0]);
      }
      Transacted(mid, Now());
      WentTransitive(old(Now()), mid, Now());
    }

    method SkipRow(chain: string, rows: seq<EventRow>) returns (threw: bool)
      requires Valid() && busy && rows != [] && db.control == Parked(chain, rows)
      modifies db, this`again, this`nudges, this`passes, this`failures
      ensures Valid() && Went(old(Now()), Now()) && db.committed == old(db.committed) && db.dead == old(db.dead)
      ensures threw ==> db.control.Idle? && failures > old(failures)
      ensures !threw ==> db.control == NextRow(chain, rows) && Seen(db.Now(), chain) >= old(Seen(db.Now(), chain)) + 1
    {
      hide Kept, Went, Waited, Advanced, OnlyOthers, Forward;
      hide Passes.Inv, Database.History, Database.Fair, Position, SameEvent, ReaderOf;
      Pause(false);
      ghost var mid := Now();
      WaitedIsWent(old(Now()), mid);
      threw := Fails();
      if threw {
        db.Abandon();
      } else {
        db.AdvanceReader(chain, rows[0].number);
      }
      Transacted(mid, Now());
      WentTransitive(old(Now()), mid, Now());
    }

    /**
     * Retry a failed batch one event at a time. An event that still fails is parked and stepped over.
     * Throws only when parking it cannot be recorded, with the cursor where it is.
     */
    method ApplyEachRow(chain: string, rows: seq<EventRow>) returns (threw: bool)
      requires Valid() && busy && rows != [] && db.control == EachRow(chain, rows, 0)
      modifies db, this`again, this`nudges, this`passes, this`failures
      ensures Valid() && Went(old(Now()), Now()) && db.control.Idle?
      ensures threw ==> failures > old(failures)
      ensures !threw ==> Seen(db.Now(), chain) >= old(Seen(db.Now(), chain)) + |rows|
    {
      hide Passes.Inv, Database.History, Database.Fair, Position, SameEvent, ReaderOf;
      NoTimePasses(Now());
      WaitedIsWent(Now(), Now());
      for i := 0 to |rows|
        invariant Valid() && Went(old(Now()), Now())
        invariant db.control == if i < |rows| then EachRow(chain, rows[i..], 0) else Idle
        invariant Seen(db.Now(), chain) >= old(Seen(db.Now(), chain)) + i
      {
        ghost var mid := Now();
        assert rows[i..][1..] == rows[i + 1..];
        threw := OneRow(chain, rows[i..]);
        WentTransitive(old(Now()), mid, Now());
        if threw {
          return;
        }
      }
      threw := false;
    }

    /** Read the cursor, unless the call fails. */
    method ReadCursor(chain: string) returns (from: int, threw: bool)
      requires Valid() && busy
      modifies db, this`again, this`nudges, this`passes, this`failures
      ensures Valid() && Waited(old(Now()), Now())
      ensures failures == old(failures) + (if threw then 1 else 0)
      ensures !threw ==> from == Cursor(db.Now(), chain)
    {
      hide Passes.Inv, Database.History, Database.Fair, Position, SameEvent;
      Pause(false);
      threw := Fails();
      from := db.ReaderSeq(chain);
    }

    /** Read the cursor and the next rows above it. */
    method NextRows(chain: string) returns (rows: seq<EventRow>, threw: bool)
      requires Valid() && busy && chain in chains && db.control.Idle?
      modifies db, this`again, this`nudges, this`passes, this`failures
      ensures Valid() && Went(old(Now()), Now())
      ensures threw ==> db.control.Idle? && failures > old(failures)
      ensures !threw && rows == [] ==> db.control.Idle? && Seen(db.Now(), chain) == |Log(db.store, chain)|
      ensures !threw && rows != [] ==> db.control == Batch(chain, rows)
    {
      hide Kept, Went, Waited, Advanced, OnlyOthers, Forward, Passes.Inv, Database.History, Database.Fair;
      hide Seen, NextRow, AfterCommit;
      rows := [];
      var from;
      from, threw := ReadCursor(chain);
      ghost var mid := Now();
      WaitedIsWent(old(Now()), mid);
      if !threw {
        Pause(false);
        WaitedIsWent(mid, Now());
        WentTransitive(old(Now()), mid, Now());
        mid := Now();
        threw := Fails();
        if threw {
          JustFailed(mid, Now());
        } else {
          rows := db.TakeRows(chain, from);
          Transacted(mid, Now());
        }
        WentTransitive(old(Now()), mid, Now());
      }
    }

    /** One round: take a batch, apply it, and if it rolls back apply it row by row. */
    method NextBatch(chain: string) returns (done: bool, threw: bool)
      requires Valid() && busy && chain in chains && db.control.Idle?
      modifies db, this`again, this`nudges, this`passes, this`failures
      ensures Valid() && Went(old(Now()), Now()) && db.control.Idle?
      ensures threw ==> failures > old(failures)
      ensures done && !threw ==> Seen(db.Now(), chain) == |Log(db.store, chain)|
      ensures !done && !threw ==> Seen(db.Now(), chain) > old(Seen(db.Now(), chain))
    {
      hide Passes.Inv, Database.History, Database.Fair, Position, SameEvent, ReaderOf;
      var rows;
      rows, threw := NextRows(chain);
      done := rows == [];
      if done || threw {
        return;
      }
      ghost var mid := Now();
      var ok := ApplyBatch(chain, rows);
      WentTransitive(old(Now()), mid, Now());
      if !ok {
        mid := Now();
        threw := ApplyEachRow(chain, rows);
        WentTransitive(old(Now()), mid, Now());
      }
    }

    /**
     * Drain one chain: batch after batch until nothing is left above the cursor. Ends because each
     * round either moves the cursor up or throws, and others only have so much left to add. Throws only
     * if a call failed.
     */
    method DrainChain(chain: string) returns (threw: bool)
      requires Valid() && busy && chain in chains && db.control.Idle?
      modifies db, this`again, this`nudges, this`passes, this`failures
      ensures Valid() && Went(old(Now()), Now()) && db.control.Idle?
      ensures threw ==> failures > old(failures)
      ensures !threw ==> Seen(db.Now(), chain) == |Log(db.store, chain)|
    {
      hide Passes.Inv, Database.History, Database.Fair, Position, SameEvent, ReaderOf;
      NoTimePasses(Now());
      WaitedIsWent(Now(), Now());
      while true
        invariant Valid() && Went(old(Now()), Now()) && db.control.Idle?
        decreases |db.outside| + |Log(db.store, chain)| - Seen(db.Now(), chain)
      {
        ghost var mid := Now();
        var done;
        done, threw := NextBatch(chain);
        WentTransitive(old(Now()), mid, Now());
        if done || threw {
          return;
        }
      }
    }

    /** Honour a rebuild asked for this reader; a failure to is logged and otherwise ignored. */
    method Rebuild() returns (ok: bool)
      requires Valid() && busy && db.control.Idle?
      modifies db, this`again, this`nudges, this`passes, this`failures
      ensures Valid() && Kept(old(Now()), Now()) && db.control.Idle?
      ensures Grew(old(db.store), db.store)
      ensures ok ==> !db.rebuildAsked
      ensures ok && old(db.rebuildAsked) ==> db.tables == map[] && db.cursors == map[] && db.dead == {}
      ensures !ok ==> failures > old(failures) && Waited(old(Now()), Now())
    {
      hide Passes.Inv, Database.History, Database.Fair, Position, SameEvent, ReaderOf;
      Pause(false);
      ghost var mid := Now();
      var lost := Fails();
      ok := !lost;
      if ok {
        var rebuilt := db.ApplyRebuild();
      }
      KeptTransitive(old(Now()), mid, Now());
    }

    /** Everything of the reader's chains that was stored then has been read. */
    ghost predicate Covers(stored: Store)
      reads db
    {
      forall c | c in chains :: |Log(stored, c)| <= Seen(db.Now(), c)
    }

    /** Since the first `n` transactions there was a moment at which no rebuild was asked for. */
    ghost predicate Honoured(n: nat)
      reads db
    {
      exists i :: n <= i < |db.states| && !db.states[i].rebuildAsked
    }

    /** The open pass, as the log has it. */
    ghost predicate Open(visited: nat)
      reads this
    {
      |passes.running| == 1 && passes.running[0].visited == visited
    }

    /** The next chain of the pass. */
    ghost method Visit()
      requires Valid() && busy && |passes.running| == 1 && passes.running[0].visited < |chains|
      modifies this`passes
      ensures Valid() && passes == Passes.Marked(old(passes), Passes.Visited(old(passes).running[0].visited))
    {
      Passes.ResumingIs(passes, |chains|);
      Passes.StepKeepsInv(passes, Passes.Resume(0), |chains|);
      passes := Passes.Resuming(passes, 0, |chains|);
    }

    /** The next chain of a pass is visited and drained. */
    method VisitChain(i: nat) returns (threw: bool)
      requires Valid() && busy && db.control.Idle? && i < |chains| && Open(i)
      modifies db, this`again, this`nudges, this`passes, this`failures
      ensures Valid() && db.control.Idle? && Open(i + 1) && KeptButVisits(old(Now()), Now())
      ensures Grew(old(db.store), db.store) && forall c :: old(Seen(db.Now(), c)) <= Seen(db.Now(), c)
      ensures threw ==> failures > old(failures)
      ensures !threw ==> Seen(db.Now(), chains[i]) == |Log(db.store, chains[i])|
    {
      hide Passes.Inv, Database.History, Database.Fair, Position, SameEvent, ReaderOf;
      Visit();
      ghost var mid := Now();
      threw := DrainChain(chains[i]);
      VisitAndDrain(old(Now()), mid, Now());
    }

    /** The first `i` chains have been read as far as a store had them. */
    ghost predicate CoversFirst(stored: Store, i: nat)
      reads db
      requires i <= |chains|
    {
      forall k | 0 <= k < i :: |Log(stored, chains[k])| <= Seen(db.Now(), chains[k])
    }

    lemma CoversMore(stored: Store, i: nat, was: State)
      requires i < |chains| && Grew(stored, db.store) && forall c :: Seen(was, c) <= Seen(db.Now(), c)
      requires forall k | 0 <= k < i :: |Log(stored, chains[k])| <= Seen(was, chains[k])
      requires Seen(db.Now(), chains[i]) == |Log(db.store, chains[i])|
      ensures CoversFirst(stored, i + 1)
    {
      hide Position, SameEvent;
      forall k | 0 <= k < i + 1 ensures |Log(stored, chains[k])| <= Seen(db.Now(), chains[k]) {
        assert k < i ==> Seen(was, chains[k]) <= Seen(db.Now(), chains[k]);
      }
    }

    lemma CoversAll(stored: Store)
      requires CoversFirst(stored, |chains|)
      ensures Covers(stored)
    {
      forall c | c in chains ensures |Log(stored, c)| <= Seen(db.Now(), c) {
        var k :| 0 <= k < |chains| && chains[k] == c;
      }
    }

    /**
     * One pass over all chains; a chain that throws is logged and the pass goes on. The pass is clean
     * unless a call failed: then everything stored when it began has been read, and a rebuild asked for by
     * then has been run.
     */
    method Pass() returns (clean: bool)
      requires Valid() && busy && db.control.Idle? && Open(0)
      modifies db, this`again, this`nudges, this`passes, this`failures, this`began
      ensures Valid() && db.control.Idle? && Open(|chains|)
      ensures KeptButVisits(old(Now()), Now())
      ensures began == old(db.store) && Grew(began, db.store)
      ensures !clean ==> failures > old(failures)
      ensures clean ==> Covers(began) && Honoured(|old(db.steps)|)
    {
      hide Passes.Inv, Database.History, Database.Fair, Position, SameEvent, ReaderOf;
      hide Kept, KeptButVisits, Forward, Advanced, Grew, Waited;
      began := db.store;
      clean := Rebuild();
      KeptIsButVisits(old(Now()), Now());
      ghost var rebuilt := |db.steps|;
      db.LastState();
      for i := 0 to |chains|
        invariant Valid() && db.control.Idle? && Open(i)
        invariant KeptButVisits(old(Now()), Now())
        invariant began == old(db.store) && Grew(began, db.store)
        invariant !clean ==> failures > old(failures)
        invariant |old(db.steps)| <= rebuilt < |db.states| && (clean ==> !db.states[rebuilt].rebuildAsked)
        invariant clean ==> CoversFirst(began, i)
      {
        ghost var was := Now();
        assert clean ==> forall k | 0 <= k < i :: |Log(began, chains[k])| <= Seen(was.state, chains[k]);
        var threw := VisitChain(i);
        GrewTransitive(began, was.state.store, db.store);
        VisitsTransitive(old(Now()), was, Now());
        if clean && !threw {
          CoversMore(began, i, was.state);
        }
        clean := clean && !threw;
      }
      if clean {
        CoversAll(began);
      }
    }

    /** Everything stored at a moment has been read, and a rebuild asked for by then has been run. */
    ghost predicate Served(stored: Store, n: nat)
      reads db
    {
      Covers(stored) && Honoured(n)
    }

    lemma ServedEarlier(stored: Store, n: nat, later: Store, m: nat)
      requires Served(later, m) && Grew(stored, later) && n <= m
      ensures Served(stored, n)
    {
    }

    /** `run`, up to the await in its first rebuild. */
    method Begin(ghost call: Passes.Step)
      requires Valid() && !busy && Passes.Enabled(passes, call) && !call.Resume?
      modifies this`busy, this`again, this`passes
      ensures Valid() && busy && !again && Open(0) && passes == Passes.After(old(passes), call, |chains|)
    {
      hide NudgesStored, Passes.Inv, Passes.After, Database.History, Database.Fair, Position, SameEvent, ReaderOf;
      busy, again := true, false;
      Passes.CallOpens(passes, call, |chains|);
      passes := Passes.After(passes, call, |chains|);
    }

    /** The end of a pass: another begins if a nudge asked for it, and otherwise the run is over. */
    method EndPass() returns (more: bool)
      requires Valid() && busy && Open(|chains|)
      modifies this`busy, this`again, this`passes
      ensures Valid() && more == old(again) && busy == more && !again && (more ==> Open(0))
      ensures old(passes.log) <= passes.log
    {
      hide NudgesStored, Passes.Inv, Database.History, Database.Fair, Position, SameEvent, ReaderOf;
      more, again := again, false;
      busy := more;
      Passes.StepKeepsInv(passes, Passes.Resume(0), |chains|);
      Passes.ResumingIs(passes, |chains|);
      passes := Passes.Resuming(passes, 0, |chains|);
    }

    /**
     * `run`: passes until no nudge has arrived during the last one. `call` is the step that calls it. It
     * makes at least one whole pass, the last of which began no earlier than any nudge; and unless a call
     * failed, whatever was stored or asked for when it started and when any nudge arrived has been read and
     * run.
     */
    method Run(ghost call: Passes.Step) returns (clean: bool)
      requires Valid() && !busy && db.control.Idle?
      requires Passes.Enabled(passes, call) && !call.Resume?
      modifies db, this`busy, this`again, this`nudges, this`passes, this`failures, this`began
      ensures Valid() && !busy && !again && db.control.Idle?
      ensures Passes.After(old(passes), call, |chains|).log <= passes.log
      ensures old(nudges) <= nudges && old(db.steps) <= db.steps && old(failures) <= failures
      ensures Grew(old(db.store), began) && forall k | |old(nudges)| <= k < |nudges| :: Grew(nudges[k].store, began)
      ensures !clean ==> failures > old(failures)
      ensures clean ==> Served(old(db.store), |old(db.steps)|)
      ensures clean ==> forall k | |old(nudges)| <= k < |nudges| :: Served(nudges[k].store, nudges[k].at)
    {
      hide Seen, Database.Valid;
      hide Covers, Honoured, Grew;
      hide Passes.Inv, Database.History, Database.Fair, Position, SameEvent, ReaderOf;
      ghost var n, at := |nudges|, |db.steps|;
      GrewReflexive(db.store);
      Begin(call);
      clean := Pass();
      var more := EndPass();
      while more
        invariant Valid() && busy == more && !again && db.control.Idle? && (more ==> Open(0))
        invariant Passes.After(old(passes), call, |chains|).log <= passes.log
        invariant old(nudges) <= nudges && old(db.steps) <= db.steps && old(failures) <= failures
        invariant Grew(old(db.store), db.store) && Grew(began, db.store) && |old(db.steps)| <= at <= |db.steps|
        invariant if clean then Served(began, at) else failures > old(failures)
        invariant !more ==>
                    && Grew(old(db.store), began)
                    && forall k | n <= k < |nudges| :: Grew(nudges[k].store, began) && nudges[k].at <= at
        decreases |db.outside| + if more then 1 else 0
      {
        ghost var mid, was := db.store, Now();
        at := |db.steps|;
        clean := Pass();
        more := EndPass();
        GrewTransitive(old(db.store), mid, db.store);
      }
      if clean {
        ServedEarlier(old(db.store), |old(db.steps)|, began, at);
        forall k | n <= k < |nudges| ensures Served(nudges[k].store, nudges[k].at) {
          ServedEarlier(nudges[k].store, nudges[k].at, began, at);
        }
      }
    }

    /**
     * A nudge. During a run it asks for another pass and does nothing else; otherwise a run starts, and
     * unless a call fails everything stored and asked for by now is read and run.
     */
    method Trigger()
      requires Valid() && (!busy ==> db.control.Idle?)
      modifies db, this`busy, this`again, this`nudges, this`passes, this`failures, this`began
      ensures Valid() && busy == old(busy)
      ensures busy ==> again && passes == Passes.Triggering(old(passes)) && db.Now() == old(db.Now())
      ensures !busy ==>
                && !again && db.control.Idle? && Passes.Triggering(old(passes)).log <= passes.log
                && Grew(old(db.store), began)
                && (failures == old(failures) ==> Served(old(db.store), |old(db.steps)|))
    {
      hide Passes.Inv, Database.History, Database.Fair, Position, SameEvent, ReaderOf;
      var starts := Nudged();
      if starts {
        var clean := Run(Passes.Trigger);
      }
    }

    /**
     * `start`, but for the timer: it subscribes to nudges and calls `run` past the guard. No await lies in
     * between, so it is the first to call it.
     */
    method Start()
      requires Valid() && !busy && db.control.Idle? && passes.log == []
      modifies db, this`busy, this`again, this`nudges, this`passes, this`failures, this`began
      ensures Valid() && !busy && db.control.Idle?
      ensures chains == [] ==> passes == old(passes) && db.Now() == old(db.Now())
      ensures chains != [] ==>
                && [Passes.Began] <= passes.log && Grew(old(db.store), began)
                && (failures == old(failures) ==> Served(old(db.store), |old(db.steps)|))
    {
      hide Passes.Inv, Database.History, Database.Fair, Position, SameEvent, ReaderOf;
      if chains == [] {
        return;
      }
      var clean := Run(Passes.Start);
    }
  }

  /** `Kept`, but that the open pass may have visited chains. */
  ghost predicate KeptButVisits(m: Moment, n: Moment) {
    Kept(m, n.(passes := n.passes.(running := m.passes.running)))
  }

  lemma VisitAndDrain(start: Moment, mid: Moment, now: Moment)
    requires Kept(mid, now) && start.passes.log <= mid.passes.log
    requires mid == start.(passes := mid.passes) && mid.passes.again == start.passes.again
    ensures KeptButVisits(start, now)
  {
  }

  lemma KeptIsButVisits(m: Moment, n: Moment)
    requires Kept(m, n)
    ensures KeptButVisits(m, n) && m.steps <= n.steps && m.states <= n.states && m.failures <= n.failures
    ensures m.passes.running == n.passes.running
  {
  }

  lemma VisitsTransitive(a: Moment, b: Moment, c: Moment)
    requires KeptButVisits(a, b) && KeptButVisits(b, c)
    ensures KeptButVisits(a, c) && b.steps <= c.steps && b.states <= c.states && a.failures <= b.failures <= c.failures
  {
  }

  /** A rebuild asked for stays so until one runs. */
  lemma {:induction false} AskedUntilRebuilt(r: Reader, states: seq<State>, steps: seq<Step>, n: nat, i: nat)
    requires ReaderProtocol.Run(r, states, steps) && n <= i < |states|
    requires states[n].rebuildAsked && !states[i].rebuildAsked
    ensures Step.Rebuild in steps[n..]
  {
    if n < i {
      if states[i - 1].rebuildAsked {
        assert steps[i - 1] == Step.Rebuild == steps[n..][i - 1 - n];
      } else {
        AskedUntilRebuilt(r, states, steps, n, i - 1);
      }
    }
  }

  /** What it means to be served: a rebuild that was asked for at that moment has run since. */
  lemma ServedIsRebuilt(d: Drain, stored: Store, n: nat)
    requires d.Valid() && d.Served(stored, n) && n < |d.db.states| && d.db.states[n].rebuildAsked
    ensures Step.Rebuild in d.db.steps[n..]
  {
    var i :| n <= i < |d.db.states| && !d.db.states[i].rebuildAsked;
    AskedUntilRebuilt(d.db.reader, d.db.states, d.db.steps, n, i);
  }

  /** Where a commit, or a rollback, of what is being tried leaves the reader. */
  ghost function AfterCommit(c: Control): Control {
    if c.EachRow? && c.rows != [] then NextRow(c.chain, c.rows) else Idle
  }

  ghost function AfterFailure(c: Control): Control {
    if c.Batch? then EachRow(c.chain, c.rows, 0)
    else if !c.EachRow? then Idle
    else if c.attempt + 1 < ROW_ATTEMPTS then c.(attempt := c.attempt + 1)
    else Failed(c.chain, c.rows)
  }

  lemma LegsOneMore(flows: seq<Flow>, refs: seq<LegRef>, i: nat, t: Tables, row: EventRow)
    requires ValidRefs(flows, refs) && i < |refs| && ApplyLegs(flows, refs[..i], t, row).Some?
    ensures ApplyLegs(flows, refs[..i + 1], t, row) ==
              ApplyLeg(flows[refs[i].flow], LegAt(flows, refs[i]), ApplyLegs(flows, refs[..i], t, row).value, row)
  {
    assert refs[..i + 1][..i] == refs[..i];
  }

  /** A leg that throws undoes whatever the legs after it would have done. */
  lemma {:induction false} LegsFail(flows: seq<Flow>, refs: seq<LegRef>, i: nat, t: Tables, row: EventRow)
    requires ValidRefs(flows, refs) && i <= |refs| && ApplyLegs(flows, refs[..i], t, row).None?
    ensures ApplyLegs(flows, refs, t, row).None?
    decreases |refs| - i
  {
    if i < |refs| {
      assert refs[..i + 1][..i] == refs[..i];
      LegsFail(flows, refs, i + 1, t, row);
    } else {
      assert refs[..i] == refs;
    }
  }

  /** Every event filled in to another yield after it was read was read again since, from empty tables. */
  ghost predicate FillsAreRebuilt(m: Replay.Meaning, db: Database)
    reads db
  {
    && |db.states| == |db.steps| + 1
    && forall i | 0 <= i < |db.steps| && Replay.FillsRead(m, db.states[i], db.steps[i]) ::
         Replay.RebuiltSince(db.steps, i, |db.steps|)
  }

  /** What the program's own run is like: it gives up on what it may give up on. */
  lemma FairIsClean(db: Database, m: Replay.Meaning)
    requires db.Valid() && db.Fair() && FillsAreRebuilt(m, db) && Replay.Means(db.reader, m)
    ensures Replay.Clean(m, db.states, db.steps, |db.steps|)
  {
    hide Replay.FillsRead, Replay.Means, Database.History;
    forall i | 0 <= i < |db.steps| ensures !Replay.GivesUpWrongly(m, db.states[i], db.steps[i]) {
      NotWrongly(db.reader, m, db.states[i], db.steps[i]);
    }
  }

  lemma NotWrongly(r: Reader, m: Replay.Meaning, s: State, step: Step)
    requires RightlyGivesUp(r, s, step) && Replay.Means(r, m)
    ensures !Replay.GivesUpWrongly(m, s, step)
  {
    if GivesUp(s, step) {
      assert r.apply(s.tables, s.control.rows[0]).None?;
    }
  }

  /**
   * Two drains of one definition, whose flows mean the same whatever the tables hold, that have read all of
   * the same store agree on every row that neither had pruned and into which the same was merged past them,
   * whatever arrived in between: nudges, rebuilds, rollbacks, retries.
   */
  lemma DrainsAgree(d: Drain, e: Drain, m: Replay.Meaning, id: RowId)
    requires d.Valid() && e.Valid() && d.db.Fair() && e.db.Fair()
    requires d.flows == e.flows && d.routes == e.routes && d.chains == e.chains
    requires d.db.store == e.db.store && d.Covers(d.db.store) && e.Covers(e.db.store)
    requires Replay.Means(d.db.reader, m) && FillsAreRebuilt(m, d.db) && FillsAreRebuilt(m, e.db)
    requires id !in PrunedIn(d.db.changes) && id !in PrunedIn(e.db.changes)
    requires Replay.SameMerges(d.db.Now(), e.db.Now(), id) && Replay.WritesAgree(d.db.reader, m, d.db.Now(), id)
    ensures SameAt(d.db.tables, e.db.tables, id)
  {
    CoversIsDrained(d);
    CoversIsDrained(e);
    FairIsClean(d.db, m);
    FairIsClean(e.db, m);
    hide Replay.Clean, Replay.Drained, Replay.SameMerges, Replay.WritesAgree, Replay.Means, SameAt;
    hide FillsAreRebuilt, Database.Fair, Passes.Inv;
    Replay.SameStoreSameRow(
      d.db.reader, m, d.db.states, d.db.steps, |d.db.steps|, e.db.states, e.db.steps, |e.db.steps|, id);
  }

  lemma CoversIsDrained(d: Drain)
    requires d.Valid() && d.Covers(d.db.store)
    ensures Replay.Drained(d.db.reader, d.db.Now())
  {
    hide Passes.Inv, Database.Fair;
    d.db.ValidInv();
    forall c | c in d.db.reader.chains ensures Seen(d.db.Now(), c) == |Log(d.db.store, c)| {
      CursorCuts(d.db.Now(), c);
    }
  }
}
