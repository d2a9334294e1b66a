/**
 * Events both parked and committed. Parking an event and stepping over it are two transactions; a crash
 * between them leaves the event parked above the cursor, to be read, and perhaps committed, again.
 */
module Parking {
  import opened Wrappers
  import opened EventLog
  import opened Merge
  import opened Tables
  import opened ReaderProtocol

  ghost predicate CommittedRef(s: State, ref: Ref) {
    exists k :: 0 <= k < |s.committed| && RefOf(s.committed[k]) == ref
  }

  /** The event whose parking is recorded and that is about to be stepped over. */
  ghost predicate ParkedNow(s: State, ref: Ref) {
    s.control.Parked? && s.control.rows != [] && RefOf(s.control.rows[0]) == ref
  }

  /** Before state `i`, and since the last rebuild, the process died between parking the event and stepping over it. */
  ghost predicate Interrupted(states: seq<State>, steps: seq<Step>, i: nat, ref: Ref)
    requires |states| == |steps| + 1
  {
    exists j :: InterruptedAt(states, steps, i, j, ref)
  }

  ghost predicate InterruptedAt(states: seq<State>, steps: seq<Step>, i: nat, j: int, ref: Ref)
    requires |states| == |steps| + 1
  {
    && 0 <= j < i <= |steps| && steps[j].Abandon? && ParkedNow(states[j], ref)
    && forall k | j < k < i :: !steps[k].Rebuild?
  }

  /** A parked event is about to be stepped over, was stepped over uncommitted, or was left by a crash. */
  ghost predicate Accounted(states: seq<State>, steps: seq<Step>, i: nat, ref: Ref)
    requires |states| == |steps| + 1 && i < |states|
  {
    || ParkedNow(states[i], ref)
    || (ref.number <= Cursor(states[i], ref.chain) && !CommittedRef(states[i], ref))
    || Interrupted(states, steps, i, ref)
  }

  lemma StillInterrupted(states: seq<State>, steps: seq<Step>, i: nat, ref: Ref)
    requires |states| == |steps| + 1 && i < |steps| && !steps[i].Rebuild?
    requires Interrupted(states, steps, i, ref)
    ensures Interrupted(states, steps, i + 1, ref)
  {
    var j :| InterruptedAt(states, steps, i, j, ref);
    assert InterruptedAt(states, steps, i + 1, j, ref);
  }

  /** Rows about to be committed or stepped over have not been committed. */
  lemma NextNotCommitted(r: Reader, s: State, ref: Ref)
    requires Inv(r, s) && !s.control.Idle? && ref.chain == s.control.chain && ref.number > Cursor(s, ref.chain)
    ensures !CommittedRef(s, ref)
  {
    forall k | 0 <= k < |s.committed| ensures RefOf(s.committed[k]) != ref {
      assert SeenInLog(r, s, s.committed[k]);
    }
  }

  lemma ParkedNotCommitted(r: Reader, s: State, ref: Ref)
    requires Inv(r, s) && ParkedNow(s, ref)
    ensures !CommittedRef(s, ref)
  {
    NextRowsUnseen(s, s.control.chain, s.control.rows, 0);
    NextNotCommitted(r, s, ref);
  }

  /** A commit adds events above the cursor only. */
  lemma CommitAddsUnseen(r: Reader, s: State, step: Step, ref: Ref)
    requires Inv(r, s) && Enabled(r, s, step) && (step.CommitBatch? || step.CommitRow?)
    requires ref.number <= Cursor(s, ref.chain) && !CommittedRef(s, ref)
    ensures ref.number <= Cursor(After(r, s, step), ref.chain) && !CommittedRef(After(r, s, step), ref)
  {
    var t := After(r, s, step);
    var c, rows := s.control.chain, s.control.rows;
    forall k | 0 <= k < |rows| ensures rows[k].chain == c && Cursor(s, c) < rows[k].number {
      NextRowsUnseen(s, c, rows, k);
    }
    forall k | 0 <= k < |t.committed| ensures RefOf(t.committed[k]) != ref {
      if k < |s.committed| {
        assert t.committed[k] == s.committed[k];
      }
    }
  }

  lemma StepAccounts(r: Reader, states: seq<State>, steps: seq<Step>, i: nat, ref: Ref)
    requires Run(r, states, steps) && i < |steps| && Inv(r, states[i])
    requires ref in states[i + 1].dead
    requires ref in states[i].dead ==> Accounted(states, steps, i, ref)
    ensures Accounted(states, steps, i + 1, ref)
  {
    hide Inv, NextRows, ApplyAll, TakeEvents, InsertedOne, Interrupted, InterruptedAt;
    var s, t, step := states[i], states[i + 1], steps[i];
    if ref !in s.dead {
      assert step.Park? && ParkedNow(t, ref);
    } else if Interrupted(states, steps, i, ref) {
      StillInterrupted(states, steps, i, ref);
    } else if ParkedNow(s, ref) {
      ParkedMovesOn(r, states, steps, i, ref);
    } else if step.CommitBatch? || step.CommitRow? {
      CommitAddsUnseen(r, s, step, ref);
    } else if step.StepOver? {
      SkipsUp(r, s, ref);
    }
  }

  lemma SkipsUp(r: Reader, s: State, ref: Ref)
    requires Inv(r, s) && Enabled(r, s, StepOver) && ref.number <= Cursor(s, ref.chain)
    ensures ref.number <= Cursor(After(r, s, StepOver), ref.chain)
  {
    NextRowsUnseen(s, s.control.chain, s.control.rows, 0);
  }

  lemma ParkedMovesOn(r: Reader, states: seq<State>, steps: seq<Step>, i: nat, ref: Ref)
    requires Run(r, states, steps) && i < |steps| && Inv(r, states[i])
    requires ParkedNow(states[i], ref) && !steps[i].Rebuild?
    ensures Accounted(states, steps, i + 1, ref)
  {
    var s, step := states[i], steps[i];
    if step.Abandon? {
      assert InterruptedAt(states, steps, i + 1, i, ref);
    } else if step.StepOver? {
      ParkedNotCommitted(r, s, ref);
    }
  }

  lemma {:induction false} RunAccounts(r: Reader, states: seq<State>, steps: seq<Step>, i: nat, ref: Ref)
    requires Run(r, states, steps) && Initial(states[0]) && i < |states| && ref in states[i].dead
    ensures Accounted(states, steps, i, ref)
  {
    if i > 0 {
      RunKeepsInv(r, states, steps, i - 1);
      if ref in states[i - 1].dead {
        RunAccounts(r, states, steps, i - 1, ref);
      }
      StepAccounts(r, states, steps, i - 1, ref);
    }
  }

  /** Nothing but a rebuild forgets that an event was parked. */
  lemma {:induction false} InterruptedStaysDead(
      r: Reader, states: seq<State>, steps: seq<Step>, j: nat, i: nat, ref: Ref)
    requires Run(r, states, steps) && Initial(states[0]) && j <= i < |states|
    requires ref in states[j].dead && forall k | j <= k < i :: !steps[k].Rebuild?
    ensures ref in states[i].dead
  {
    hide TakeEvents, InsertedOne, ApplyAll, OfEvents, Initial;
    if j < i {
      InterruptedStaysDead(r, states, steps, j, i - 1, ref);
    }
  }

  /**
   * A committed event is parked as well if and only if, since the last rebuild, the process died between
   * parking it and stepping over it.
   */
  lemma BothIffInterrupted(r: Reader, states: seq<State>, steps: seq<Step>, i: nat, ref: Ref)
    requires Run(r, states, steps) && Initial(states[0]) && i < |states| && CommittedRef(states[i], ref)
    ensures ref in states[i].dead <==> Interrupted(states, steps, i, ref)
  {
    RunKeepsInv(r, states, steps, i);
    if ref in states[i].dead {
      RunAccounts(r, states, steps, i, ref);
      if ParkedNow(states[i], ref) {
        ParkedNotCommitted(r, states[i], ref);
      }
    }
    if Interrupted(states, steps, i, ref) {
      var j :| InterruptedAt(states, steps, i, j, ref);
      RunKeepsInv(r, states, steps, j);
      InterruptedStaysDead(r, states, steps, j, i, ref);
    }
  }
}
