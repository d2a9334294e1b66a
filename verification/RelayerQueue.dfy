/**
 * The relayer's serialised submission queue. `drain` is an async function that any `add`, and any
 * earlier `drain`, may start again; each invocation that is suspended at an await is kept here, and
 * any of them may be the next to resume.
 */
module RelayerQueue {
  import opened Wrappers

  /** How a submission ends: mined, or by what its error says. */
  datatype Outcome = Sent | AlreadyDone | Dead | NonceTooLow | Failed

  /** Where an invocation of `drain` is suspended. */
  datatype Suspended = InSubmit(task: nat, nonce: int) | InReload(task: nat) | InCheck

  /** What became of a task: its promise resolved, rejected, or forgotten by a reload that threw. */
  datatype Fate = Resolved(how: Outcome) | Rejected | Lost

  datatype Ending = Ending(task: nat, fate: Fate)

  /** What happened to the nonce: a submission under it, or a reload. */
  datatype Mark = Submitted(under: int, outcome: Outcome) | Reloaded(to: int)

  /**
   * The closure's state, the suspended drains, and what has happened: how many tasks were added (tasks
   * are numbered in that order), which have finished, the nonce's history, and whether a balance check
   * ever threw.
   */
  datatype State = State(
    pending: seq<nat>,
    nonce: int,
    processing: bool,
    drains: seq<Suspended>,
    added: nat,
    finished: seq<Ending>,
    marks: seq<Mark>,
    checkThrew: bool)

  function Initial(nonce: int): State {
    State([], nonce, false, [], 0, [], [], false)
  }

  // ---------- Steps ----------

  datatype Step =
    | Add
    | SubmitEnds(at: nat, outcome: Outcome)
    | ReloadReturns(at: nat, nonce: int)
    | ReloadThrows(at: nat)
    | CheckReturns(at: nat)
    | CheckThrows(at: nat)

  /** `drain` up to its first await. */
  function Draining(s: State): State {
    if s.processing || s.pending == [] then s
    else s.(processing := true, pending := s.pending[1..], drains := s.drains + [InSubmit(s.pending[0], s.nonce)])
  }

  /** The `finally` block up to its await: the invocation at `i` goes on to check the balance. */
  function Finally(s: State, i: nat): State
    requires i < |s.drains|
  {
    s.(processing := false, drains := s.drains[i := InCheck])
  }

  function Without(drains: seq<Suspended>, i: nat): seq<Suspended>
    requires i < |drains|
  {
    drains[..i] + drains[i + 1..]
  }

  predicate Enabled(s: State, step: Step) {
    match step
    case Add => true
    case SubmitEnds(i, _) => i < |s.drains| && s.drains[i].InSubmit?
    case ReloadReturns(i, _) => i < |s.drains| && s.drains[i].InReload?
    case ReloadThrows(i) => i < |s.drains| && s.drains[i].InReload?
    case CheckReturns(i) => i < |s.drains| && s.drains[i].InCheck?
    case CheckThrows(i) => i < |s.drains| && s.drains[i].InCheck?
  }

  function Submitting(s: State, i: nat, outcome: Outcome): State
    requires i < |s.drains| && s.drains[i].InSubmit?
  {
    var task := s.drains[i].task;
    var t := s.(marks := s.marks + [Submitted(s.drains[i].nonce, outcome)]);
    match outcome
    case Sent => Finally(t.(nonce := t.nonce + 1, finished := t.finished + [Ending(task, Resolved(Sent))]), i)
    case AlreadyDone => Finally(t.(finished := t.finished + [Ending(task, Resolved(AlreadyDone))]), i)
    case Dead => Finally(t.(finished := t.finished + [Ending(task, Resolved(Dead))]), i)
    case NonceTooLow => t.(drains := t.drains[i := InReload(task)])
    case Failed => Finally(t.(finished := t.finished + [Ending(task, Rejected)]), i)
  }

  function After(s: State, step: Step): State
    requires Enabled(s, step)
  {
    match step
    case Add => Draining(s.(pending := s.pending + [s.added], added := s.added + 1))
    case SubmitEnds(i, outcome) => Submitting(s, i, outcome)
    case ReloadReturns(i, n) =>
      Finally(s.(nonce := n, pending := [s.drains[i].task] + s.pending, marks := s.marks + [Reloaded(n)]), i)
    case ReloadThrows(i) => Finally(s.(finished := s.finished + [Ending(s.drains[i].task, Lost)]), i)
    case CheckReturns(i) => Draining(s.(drains := Without(s.drains, i)))
    case CheckThrows(i) => s.(drains := Without(s.drains, i), checkThrew := true)
  }

  // ---------- Invariant ----------

  /** The tasks that suspended drains are working on. */
  function Working(drains: seq<Suspended>): seq<nat> {
    if drains == [] then []
    else
      var last := drains[|drains| - 1];
      Working(drains[..|drains| - 1]) + if last.InCheck? then [] else [last.task]
  }

  function Tasks(finished: seq<Ending>): seq<nat> {
    seq(|finished|, i requires 0 <= i < |finished| => finished[i].task)
  }

  function UpTo(n: nat): seq<nat> {
    seq(n, i => i)
  }

  /** The nonce a history leaves, from an initial one. */
  function NonceAfter(initial: int, marks: seq<Mark>): int {
    if marks == [] then initial
    else
      match marks[|marks| - 1]
      case Submitted(_, outcome) => NonceAfter(initial, marks[..|marks| - 1]) + if outcome.Sent? then 1 else 0
      case Reloaded(n) => n
  }

  /** One drain at a time works, exactly while `processing` is set, and under the current nonce. */
  ghost predicate OneAtATime(s: State) {
    && |Working(s.drains)| == (if s.processing then 1 else 0)
    && forall i | 0 <= i < |s.drains| && s.drains[i].InSubmit? :: s.drains[i].nonce == s.nonce
  }

  /** Finished tasks, the one being worked on and those pending are all tasks ever added, in order. */
  ghost predicate InAddOrder(s: State) {
    Tasks(s.finished) + Working(s.drains) + s.pending == UpTo(s.added)
  }

  ghost predicate NonceAccounted(initial: int, s: State) {
    && s.nonce == NonceAfter(initial, s.marks)
    && forall i | 0 <= i < |s.marks| && s.marks[i].Submitted? :: s.marks[i].under == NonceAfter(initial, s.marks[..i])
  }

  /** A pending task is behind a drain that works, or that will drain again once its check returns. */
  ghost predicate NoneStranded(s: State) {
    s.pending != [] && !s.checkThrew ==> s.drains != []
  }

  ghost predicate Inv(initial: int, s: State) {
    OneAtATime(s) && InAddOrder(s) && NonceAccounted(initial, s) && NoneStranded(s)
  }

  // ---------- Proof ----------

  lemma {:induction false} WorkingAppend(a: seq<Suspended>, b: seq<Suspended>)
    ensures Working(a + b) == Working(a) + Working(b)
    decreases |b|
  {
    if b == [] {
      assert a + b == a;
    } else {
      var n := |b| - 1;
      WorkingAppend(a, b[..n]);
      assert (a + b)[..|a + b| - 1] == a + b[..n];
    }
  }

  lemma WorkingOne(d: Suspended)
    ensures Working([d]) == if d.InCheck? then [] else [d.task]
  {
    assert [d][..0] == [];
  }

  /** Around any one drain, what is worked on is those before it, its own, and those after it. */
  lemma WorkingAround(drains: seq<Suspended>, i: nat, d: Suspended)
    requires i < |drains|
    ensures Working(drains[i := d]) == Working(drains[..i]) + Working([d]) + Working(drains[i + 1..])
    ensures Working(drains) == Working(drains[..i]) + Working([drains[i]]) + Working(drains[i + 1..])
    ensures Working(Without(drains, i)) == Working(drains[..i]) + Working(drains[i + 1..])
  {
    var a, b := drains[..i], drains[i + 1..];
    assert drains[i := d] == (a + [d]) + b && drains == (a + [drains[i]]) + b;
    WorkingAppend(a + [d], b);
    WorkingAppend(a, [d]);
    WorkingAppend(a + [drains[i]], b);
    WorkingAppend(a, [drains[i]]);
    WorkingAppend(a, b);
  }

  /** When the one working drain changes, what is worked on becomes whatever it turns to. */
  lemma WorkingChanged(drains: seq<Suspended>, i: nat, d: Suspended)
    requires i < |drains| && |Working(drains)| <= 1 && !drains[i].InCheck?
    ensures Working(drains) == [drains[i].task]
    ensures Working(drains[i := d]) == if d.InCheck? then [] else [d.task]
  {
    WorkingAround(drains, i, d);
    WorkingOne(drains[i]);
    WorkingOne(d);
  }

  lemma WorkingLeft(drains: seq<Suspended>, i: nat)
    requires i < |drains| && drains[i].InCheck?
    ensures Working(Without(drains, i)) == Working(drains)
  {
    WorkingAround(drains, i, drains[i]);
    WorkingOne(drains[i]);
  }

  /** An invocation in submit is a working one, so with none working all are in their check. */
  lemma {:induction false} IdleMeansChecking(drains: seq<Suspended>, i: nat)
    requires i < |drains| && Working(drains) == []
    ensures drains[i].InCheck?
  {
    WorkingAround(drains, i, drains[i]);
    WorkingOne(drains[i]);
  }

  lemma DrainingStarts(s: State)
    requires OneAtATime(s) && InAddOrder(s) && !s.processing && s.pending != []
    ensures OneAtATime(Draining(s)) && InAddOrder(Draining(s))
  {
    hide Working, UpTo, Tasks;
    var d := InSubmit(s.pending[0], s.nonce);
    WorkingAppend(s.drains, [d]);
    WorkingOne(d);
    assert [s.pending[0]] + s.pending[1..] == s.pending;
    forall i | 0 <= i < |s.drains| ensures s.drains[i].InCheck? {
      IdleMeansChecking(s.drains, i);
    }
  }

  lemma DrainingKeeps(initial: int, s: State)
    requires OneAtATime(s) && InAddOrder(s) && NonceAccounted(initial, s)
    ensures Inv(initial, Draining(s))
  {
    if !s.processing && s.pending != [] {
      DrainingStarts(s);
    }
  }

  lemma AddKeeps(initial: int, s: State)
    requires Inv(initial, s)
    ensures Inv(initial, After(s, Add))
  {
    hide Working, Tasks, NonceAfter;
    assert UpTo(s.added + 1) == UpTo(s.added) + [s.added];
    DrainingKeeps(initial, s.(pending := s.pending + [s.added], added := s.added + 1));
  }

  lemma OneMoreFinished(finished: seq<Ending>, f: Ending)
    ensures Tasks(finished + [f]) == Tasks(finished) + [f.task]
  {
  }

  lemma OneMoreMark(initial: int, s: State, m: Mark)
    requires NonceAccounted(initial, s) && (m.Submitted? ==> m.under == s.nonce)
    ensures NonceAfter(initial, s.marks + [m]) ==
              if m.Reloaded? then m.to else s.nonce + if m.outcome.Sent? then 1 else 0
    ensures forall i | 0 <= i < |s.marks + [m]| && (s.marks + [m])[i].Submitted? ::
              (s.marks + [m])[i].under == NonceAfter(initial, (s.marks + [m])[..i])
  {
    var more := s.marks + [m];
    assert more[..|s.marks|] == s.marks;
    assert forall i | 0 <= i < |s.marks| :: more[..i] == s.marks[..i];
  }

  /** No other drain is in submit beside the one that works. */
  lemma OthersChecking(s: State, i: nat, j: nat)
    requires OneAtATime(s) && i < |s.drains| && !s.drains[i].InCheck? && j < |s.drains| && j != i
    ensures s.drains[j].InCheck?
  {
    WorkingChanged(s.drains, i, InCheck);
    IdleMeansChecking(s.drains[i := InCheck], j);
  }

  lemma SubmitKeepsOrder(s: State, i: nat, outcome: Outcome)
    requires InAddOrder(s) && |Working(s.drains)| <= 1 && Enabled(s, SubmitEnds(i, outcome))
    ensures InAddOrder(Submitting(s, i, outcome))
  {
    hide UpTo, Working;
    var task := s.drains[i].task;
    var t := Submitting(s, i, outcome);
    if outcome.NonceTooLow? {
      WorkingChanged(s.drains, i, InReload(task));
      assert t.drains == s.drains[i := InReload(task)];
    } else {
      var e := Ending(task, if outcome.Failed? then Rejected else Resolved(outcome));
      WorkingChanged(s.drains, i, InCheck);
      OneMoreFinished(s.finished, e);
      assert t.drains == s.drains[i := InCheck] && t.finished == s.finished + [e];
      assert Tasks(s.finished) + [task] + s.pending == Tasks(t.finished) + [] + t.pending;
    }
  }

  lemma SubmitKeepsTurn(s: State, i: nat, outcome: Outcome)
    requires OneAtATime(s) && Enabled(s, SubmitEnds(i, outcome))
    ensures OneAtATime(Submitting(s, i, outcome))
  {
    WorkingChanged(s.drains, i, if outcome.NonceTooLow? then InReload(s.drains[i].task) else InCheck);
    forall j | 0 <= j < |s.drains| && j != i ensures s.drains[j].InCheck? {
      OthersChecking(s, i, j);
    }
  }

  lemma SubmitKeeps(initial: int, s: State, i: nat, outcome: Outcome)
    requires Inv(initial, s) && Enabled(s, SubmitEnds(i, outcome))
    ensures Inv(initial, After(s, SubmitEnds(i, outcome)))
  {
    SubmitKeepsOrder(s, i, outcome);
    SubmitKeepsTurn(s, i, outcome);
    OneMoreMark(initial, s, Submitted(s.drains[i].nonce, outcome));
  }

  lemma ReloadKeepsOrder(s: State, step: Step)
    requires InAddOrder(s) && |Working(s.drains)| <= 1
    requires Enabled(s, step) && (step.ReloadReturns? || step.ReloadThrows?)
    ensures InAddOrder(After(s, step))
  {
    hide UpTo, Working;
    var i := step.at;
    var t := After(s, step);
    WorkingChanged(s.drains, i, InCheck);
    assert t.drains == s.drains[i := InCheck];
    if step.ReloadReturns? {
      assert Tasks(s.finished) + Working(s.drains) + s.pending == Tasks(t.finished) + [] + t.pending;
    } else {
      OneMoreFinished(s.finished, Ending(s.drains[i].task, Lost));
      assert Tasks(s.finished) + Working(s.drains) + s.pending == Tasks(t.finished) + [] + t.pending;
    }
  }

  lemma ReloadKeeps(initial: int, s: State, step: Step)
    requires Inv(initial, s) && Enabled(s, step) && (step.ReloadReturns? || step.ReloadThrows?)
    ensures Inv(initial, After(s, step))
  {
    hide UpTo, Working, Tasks, InAddOrder;
    var i := step.at;
    ReloadKeepsOrder(s, step);
    WorkingChanged(s.drains, i, InCheck);
    forall j | 0 <= j < |s.drains| && j != i ensures s.drains[j].InCheck? {
      OthersChecking(s, i, j);
    }
    if step.ReloadReturns? {
      OneMoreMark(initial, s, Reloaded(step.nonce));
    }
  }

  lemma CheckLeaves(s: State, i: nat)
    requires OneAtATime(s) && InAddOrder(s) && i < |s.drains| && s.drains[i].InCheck?
    ensures var t := s.(drains := Without(s.drains, i)); OneAtATime(t) && InAddOrder(t)
  {
    WorkingLeft(s.drains, i);
    var rest := Without(s.drains, i);
    forall j | 0 <= j < |rest| && rest[j].InSubmit? ensures rest[j].nonce == s.nonce {
      assert rest[j] == s.drains[if j < i then j else j + 1];
    }
  }

  lemma CheckKeeps(initial: int, s: State, step: Step)
    requires Inv(initial, s) && Enabled(s, step) && (step.CheckReturns? || step.CheckThrows?)
    ensures Inv(initial, After(s, step))
  {
    CheckLeaves(s, step.at);
    if step.CheckReturns? {
      DrainingKeeps(initial, s.(drains := Without(s.drains, step.at)));
    }
  }

  lemma StepKeepsInv(initial: int, s: State, step: Step)
    requires Inv(initial, s) && Enabled(s, step)
    ensures Inv(initial, After(s, step))
  {
    match step
    case Add => AddKeeps(initial, s);
    case SubmitEnds(i, outcome) => SubmitKeeps(initial, s, i, outcome);
    case ReloadReturns(_, _) => ReloadKeeps(initial, s, step);
    case ReloadThrows(_) => ReloadKeeps(initial, s, step);
    case CheckReturns(_) => CheckKeeps(initial, s, step);
    case CheckThrows(_) => CheckKeeps(initial, s, step);
  }

  // ---------- Every interleaving ----------

  ghost predicate Run(nonce: int, states: seq<State>, steps: seq<Step>) {
    && |states| == |steps| + 1
    && states[0] == Initial(nonce)
    && forall i | 0 <= i < |steps| :: Enabled(states[i], steps[i]) && states[i + 1] == After(states[i], steps[i])
  }

  lemma {:induction false} RunKeepsInv(nonce: int, states: seq<State>, steps: seq<Step>, i: nat)
    requires Run(nonce, states, steps) && i < |states|
    ensures Inv(nonce, states[i])
  {
    if i > 0 {
      RunKeepsInv(nonce, states, steps, i - 1);
      StepKeepsInv(nonce, states[i - 1], steps[i - 1]);
    }
  }

  /** At most one submission, or reload on its behalf, is ever in flight. */
  lemma AtMostOneInFlight(nonce: int, states: seq<State>, steps: seq<Step>, i: nat, a: nat, b: nat)
    requires Run(nonce, states, steps) && i < |states|
    requires a < |states[i].drains| && b < |states[i].drains|
    requires !states[i].drains[a].InCheck? && !states[i].drains[b].InCheck?
    ensures a == b
  {
    RunKeepsInv(nonce, states, steps, i);
    if a != b {
      OthersChecking(states[i], a, b);
      assert false;
    }
  }

  /**
   * Tasks finish in the order they were added, each once: the k-th to finish is the k-th added, even
   * when "nonce too low" put tasks back in between.
   */
  lemma FinishInAddOrder(nonce: int, states: seq<State>, steps: seq<Step>, i: nat, k: nat)
    requires Run(nonce, states, steps) && i < |states| && k < |states[i].finished|
    ensures states[i].finished[k].task == k
    ensures |states[i].finished| <= states[i].added
  {
    RunKeepsInv(nonce, states, steps, i);
    var s := states[i];
    assert (Tasks(s.finished) + Working(s.drains) + s.pending)[k] == UpTo(s.added)[k];
  }

  // ---------- What each await's end does ----------

  /** Which way a promise settles. */
  datatype Settlement = Resolves | Rejects

  /** The fate a submission's end gives its task, and whether it gives it one. */
  ghost predicate SettlesAs(outcome: Outcome, fate: Fate) {
    && (fate == Rejected <==> outcome == Failed)
    && (fate.Resolved? <==> outcome in {Sent, AlreadyDone, Dead})
    && (fate.Resolved? ==> fate.how == outcome)
    && !fate.Lost?
  }

  /**
   * A submission that ends rejects its task exactly if it failed for a reason not known to be final, and
   * resolves it exactly if it was sent, done already or can never succeed; "nonce too low" ends no task.
   * Success alone raises the nonce. But for a reload the drain goes on to its check and lets others begin.
   */
  lemma SubmissionSettles(nonce: int, states: seq<State>, steps: seq<Step>, i: nat)
    requires Run(nonce, states, steps) && i < |steps| && steps[i].SubmitEnds?
    ensures var s, t, at, outcome := states[i], states[i + 1], steps[i].at, steps[i].outcome;
      && at < |s.drains| && s.drains[at].InSubmit?
      && (outcome == NonceTooLow ==>
            t.finished == s.finished && t.drains == s.drains[at := InReload(s.drains[at].task)])
      && (outcome != NonceTooLow ==>
            && |t.finished| == |s.finished| + 1 && s.finished <= t.finished
            && t.finished[|s.finished|].task == s.drains[at].task
            && SettlesAs(outcome, t.finished[|s.finished|].fate)
            && t.drains == s.drains[at := InCheck])
      && t.processing == (outcome == NonceTooLow)
      && t.nonce == (if outcome == Sent then s.nonce + 1 else s.nonce)
      && t.pending == s.pending && t.added == s.added
  {
    RunKeepsInv(nonce, states, steps, i);
    InSubmitIsWorking(states[i], steps[i].at);
  }

  lemma InSubmitIsWorking(s: State, i: nat)
    requires OneAtATime(s) && i < |s.drains| && s.drains[i].InSubmit?
    ensures s.processing
  {
    WorkingChanged(s.drains, i, InCheck);
  }

  /** A reload that returns sets the nonce and puts its task first in line; one that throws loses its task. */
  lemma ReloadEnds(nonce: int, states: seq<State>, steps: seq<Step>, i: nat)
    requires Run(nonce, states, steps) && i < |steps| && (steps[i].ReloadReturns? || steps[i].ReloadThrows?)
    ensures var s, t, at := states[i], states[i + 1], steps[i].at;
      && at < |s.drains| && s.drains[at].InReload?
      && !t.processing && t.drains == s.drains[at := InCheck] && t.added == s.added
      && (steps[i].ReloadReturns? ==>
            && t.nonce == steps[i].nonce && t.pending == [s.drains[at].task] + s.pending && t.finished == s.finished)
      && (steps[i].ReloadThrows? ==>
            && t.nonce == s.nonce && t.pending == s.pending
            && t.finished == s.finished + [Ending(s.drains[at].task, Lost)])
  {
  }

  /** What is taken up next, if nothing is being worked on: the first pending task, under the current nonce. */
  ghost predicate TakesUp(s: State, pending: seq<nat>, drains: seq<Suspended>, t: State) {
    if s.processing || pending == [] then
      t.processing == s.processing && t.pending == pending && t.drains == drains
    else t.processing && t.pending == pending[1..] && t.drains == drains + [InSubmit(pending[0], s.nonce)]
  }

  /** An added task goes last in line; then, and after a check that returns, the first in line is taken up. */
  lemma NextIsTakenUp(nonce: int, states: seq<State>, steps: seq<Step>, i: nat)
    requires Run(nonce, states, steps) && i < |steps|
    requires steps[i].Add? || steps[i].CheckReturns? || steps[i].CheckThrows?
    ensures var s, t, step := states[i], states[i + 1], steps[i];
      && t.finished == s.finished && t.nonce == s.nonce
      && t.added == s.added + (if step.Add? then 1 else 0)
      && (step.Add? ==> TakesUp(s, s.pending + [s.added], s.drains, t))
      && (step.CheckReturns? ==>
            step.at < |s.drains| && TakesUp(s, s.pending, s.drains[..step.at] + s.drains[step.at + 1..], t))
      && (step.CheckThrows? ==>
            && step.at < |s.drains| && t.drains == s.drains[..step.at] + s.drains[step.at + 1..]
            && t.pending == s.pending && t.processing == s.processing)
  {
  }

  /** Tasks are pending and no drain is left that could take them. */
  predicate Stranded(s: State) {
    s.drains == [] && s.pending != []
  }

  /**
   * Tasks come to be stranded by exactly one event: the balance check of the last suspended drain throws
   * while tasks are pending. The next task added takes them along.
   */
  lemma StrandedIff(nonce: int, states: seq<State>, steps: seq<Step>, i: nat)
    requires Run(nonce, states, steps) && i < |steps| && !Stranded(states[i])
    ensures Stranded(states[i + 1]) <==>
              steps[i].CheckThrows? && |states[i].drains| == 1 && states[i].pending != []
  {
    RunKeepsInv(nonce, states, steps, i);
    StrandedByStep(states[i], steps[i]);
  }

  lemma StrandedByStep(s: State, step: Step)
    requires OneAtATime(s) && Enabled(s, step) && !Stranded(s)
    ensures Stranded(After(s, step)) <==> step.CheckThrows? && |s.drains| == 1 && s.pending != []
  {
    if s.drains == [] || (step.CheckReturns? && |s.drains| == 1) {
      NobodyWorking(s);
    }
    hide OneAtATime, Working;
    match step
    case CheckReturns(i) => assert |Without(s.drains, i)| == |s.drains| - 1;
    case CheckThrows(i) => assert |Without(s.drains, i)| == |s.drains| - 1;
    case _ =>
  }

  /** With nothing but checks suspended the queue is free. */
  lemma NobodyWorking(s: State)
    requires OneAtATime(s) && (s.drains == [] || s.drains == [InCheck])
    ensures !s.processing
  {
    WorkingOne(InCheck);
  }

  /** A task added to a stranded queue starts the oldest of those pending. */
  lemma AddRescues(nonce: int, states: seq<State>, steps: seq<Step>, i: nat)
    requires Run(nonce, states, steps) && i < |steps| && Stranded(states[i])
    ensures Stranded(states[i + 1]) <==> !steps[i].Add?
    ensures steps[i].Add? ==> states[i + 1].drains == [InSubmit(states[i].pending[0], states[i].nonce)]
  {
    RunKeepsInv(nonce, states, steps, i);
    assert Working(states[i].drains) == [];
  }

  /** A promise has settled: resolved or rejected. */
  ghost predicate Settled(s: State, task: nat) {
    exists k :: 0 <= k < |s.finished| && s.finished[k].task == task && !s.finished[k].fate.Lost?
  }

  ghost predicate AllSettled(s: State) {
    forall task: nat | task < s.added :: Settled(s, task)
  }

  /** Reloads that threw, in the first `i` steps. */
  function ReloadsThrown(steps: seq<Step>, i: nat): nat
    requires i <= |steps|
  {
    if i == 0 then 0 else ReloadsThrown(steps, i - 1) + if steps[i - 1].ReloadThrows? then 1 else 0
  }

  function LostIn(finished: seq<Ending>): nat {
    if finished == [] then 0
    else
      var last := |finished| - 1;
      LostIn(finished[..last]) + if finished[last].fate.Lost? then 1 else 0
  }

  lemma LostOneMore(finished: seq<Ending>, e: Ending)
    ensures LostIn(finished + [e]) == LostIn(finished) + if e.fate.Lost? then 1 else 0
  {
    assert (finished + [e])[..|finished|] == finished;
  }

  /** One task is lost for each reload that threw, and none otherwise. */
  lemma {:induction false} LostPerReload(nonce: int, states: seq<State>, steps: seq<Step>, i: nat)
    requires Run(nonce, states, steps) && i < |states|
    ensures LostIn(states[i].finished) == ReloadsThrown(steps, i)
  {
    if i > 0 {
      LostPerReload(nonce, states, steps, i - 1);
      LostByStep(states[i - 1], steps[i - 1]);
    }
  }

  lemma LostByStep(s: State, step: Step)
    requires Enabled(s, step)
    ensures LostIn(After(s, step).finished) == LostIn(s.finished) + if step.ReloadThrows? then 1 else 0
  {
    hide LostIn;
    if step.ReloadThrows? {
      LostOneMore(s.finished, Ending(s.drains[step.at].task, Lost));
    } else if step.SubmitEnds? && !step.outcome.NonceTooLow? {
      var fate := if step.outcome.Failed? then Rejected else Resolved(step.outcome);
      LostOneMore(s.finished, Ending(s.drains[step.at].task, fate));
    }
  }

  lemma {:induction false} NoneLostIff(finished: seq<Ending>)
    ensures LostIn(finished) == 0 <==> forall k | 0 <= k < |finished| :: !finished[k].fate.Lost?
  {
    if finished != [] {
      var last := |finished| - 1;
      NoneLostIff(finished[..last]);
      assert forall k | 0 <= k < last :: finished[..last][k] == finished[k];
    }
  }

  /**
   * At rest every promise ever handed out has settled if and only if no task is stranded and no reload
   * ever threw; as many are left unsettled for good as reloads threw.
   */
  lemma AllSettledIff(nonce: int, states: seq<State>, steps: seq<Step>, i: nat)
    requires Run(nonce, states, steps) && i < |states| && states[i].drains == []
    ensures AllSettled(states[i]) <==> !Stranded(states[i]) && ReloadsThrown(steps, i) == 0
    ensures LostIn(states[i].finished) == ReloadsThrown(steps, i)
  {
    RunKeepsInv(nonce, states, steps, i);
    LostPerReload(nonce, states, steps, i);
    var s := states[i];
    NoneLostIff(s.finished);
    assert |Tasks(s.finished) + Working(s.drains) + s.pending| == |UpTo(s.added)|;
    forall k: nat | k < |s.finished| ensures s.finished[k].task == k {
      FinishInAddOrder(nonce, states, steps, i, k);
    }
    forall task: nat | task < s.added
      ensures Settled(s, task) <==> task < |s.finished| && !s.finished[task].fate.Lost?
    {
      assert task < |s.finished| ==> s.finished[task].task == task;
    }
    assert s.pending != [] ==> !Settled(s, |s.finished|);
    assert forall k: nat | k < |s.finished| && s.finished[k].fate.Lost? :: !Settled(s, k);
  }

  /** It happens: of two tasks the first is mined, its balance check throws, and the second is left. */
  lemma StrandedCanHappen(nonce: int)
    ensures exists states: seq<State>, steps: seq<Step> :: Run(nonce, states, steps) && Stranded(states[|steps|])
  {
    var a := Initial(nonce);
    var steps := [Add, Add, SubmitEnds(0, Sent), CheckThrows(0)];
    var b := After(a, Add);
    var c := After(b, Add);
    var d := After(c, SubmitEnds(0, Sent));
    var states := [a, b, c, d, After(d, CheckThrows(0))];
    assert Run(nonce, states, steps) && Stranded(states[|steps|]);
  }

  /** It happens: a task's reload throws, and at rest, with no check thrown, its promise has not settled. */
  lemma UnsettledCanHappen(nonce: int)
    ensures exists states: seq<State>, steps: seq<Step> ::
      && Run(nonce, states, steps)
      && var s := states[|steps|];
      && s.drains == [] && s.pending == [] && !s.checkThrew && !AllSettled(s)
  {
    var a := Initial(nonce);
    var steps := [Add, SubmitEnds(0, NonceTooLow), ReloadThrows(0), CheckReturns(0)];
    var b := After(a, Add);
    assert b.drains == [InSubmit(0, nonce)] && b.pending == [];
    var c := After(b, SubmitEnds(0, NonceTooLow));
    assert c.drains == [InReload(0)];
    var d := After(c, ReloadThrows(0));
    assert d.drains == [InCheck] && d.finished == [Ending(0, Lost)];
    var states := [a, b, c, d, After(d, CheckReturns(0))];
    assert Run(nonce, states, steps);
    var s := states[|steps|];
    assert s.finished == [Ending(0, Lost)] && s.added == 1;
    assert !Settled(s, 0);
  }

  /** At rest, and unless a balance check ever threw, nothing is pending: every task was settled or lost. */
  lemma NothingLeftAtRest(nonce: int, states: seq<State>, steps: seq<Step>, i: nat)
    requires Run(nonce, states, steps) && i < |states|
    requires states[i].drains == [] && !states[i].checkThrew
    ensures states[i].pending == [] && (AllSettled(states[i]) <==> ReloadsThrown(steps, i) == 0)
  {
    RunKeepsInv(nonce, states, steps, i);
    AllSettledIff(nonce, states, steps, i);
  }

  /** How many of some marks are successful submissions. */
  function SentIn(marks: seq<Mark>): nat {
    if marks == [] then 0
    else
      var last := marks[|marks| - 1];
      SentIn(marks[..|marks| - 1]) + if last.Submitted? && last.outcome.Sent? then 1 else 0
  }

  lemma {:induction false} NonceBetween(initial: int, marks: seq<Mark>, i: nat, j: nat)
    requires i <= j <= |marks|
    requires forall k | i <= k < j :: marks[k].Submitted?
    ensures NonceAfter(initial, marks[..j]) == NonceAfter(initial, marks[..i]) + SentIn(marks[i..j])
    decreases j
  {
    if i < j {
      NonceBetween(initial, marks, i, j - 1);
      assert marks[..j][..j - 1] == marks[..j - 1];
      assert marks[i..j][..j - i - 1] == marks[i..j - 1];
    }
  }

  /**
   * Between reloads a submission's nonce is an earlier one's plus the successes in between: successes
   * use consecutive nonces, and done, dead, failed and "too low" outcomes consume none.
   */
  lemma NoncesConsecutive(nonce: int, states: seq<State>, steps: seq<Step>, n: nat, i: nat, j: nat)
    requires Run(nonce, states, steps) && n < |states|
    requires i <= j < |states[n].marks| && forall k | i <= k <= j :: states[n].marks[k].Submitted?
    ensures states[n].marks[j].under == states[n].marks[i].under + SentIn(states[n].marks[i..j])
  {
    RunKeepsInv(nonce, states, steps, n);
    NonceBetween(nonce, states[n].marks, i, j);
  }

  // ---------- The queue ----------

  /** The closure `createQueue` returns: its variables, and the drains the event loop holds. */
  class Queue {
    var pending: seq<nat>
    var nonce: int
    var processing: bool
    var drains: seq<Suspended>
    var added: nat

    ghost const firstNonce: int
    ghost var finished: seq<Ending>
    ghost var marks: seq<Mark>
    ghost var checkThrew: bool

    ghost function Now(): State
      reads this
    {
      State(pending, nonce, processing, drains, added, finished, marks, checkThrew)
    }

    ghost predicate Valid()
      reads this
    {
      Inv(firstNonce, Now())
    }

    /** As `init` leaves it, with the nonce loaded. */
    constructor (nonce: int)
      ensures Valid() && Now() == Initial(nonce) && firstNonce == nonce
    {
      this.nonce, firstNonce := nonce, nonce;
      pending, processing, drains, added := [], false, [], 0;
      finished, marks, checkThrew := [], [], false;
    }

    /** Starts working on the next task unless one is being worked on. */
    method Drain()
      modifies this`pending, this`processing, this`drains
      ensures Now() == Draining(old(Now()))
    {
      if processing || pending == [] {
        return;
      }
      processing := true;
      var task := pending[0];
      pending := pending[1..];
      drains := drains + [InSubmit(task, nonce)];
    }

    /** `finally`, up to the balance check. */
    method Finish(i: nat)
      requires i < |drains|
      modifies this`processing, this`drains
      ensures Now() == Finally(old(Now()), i)
    {
      processing := false;
      drains := drains[i := InCheck];
    }

    method Add() returns (task: nat)
      requires Valid()
      modifies this
      ensures Valid() && Now() == After(old(Now()), Step.Add) && task == old(added)
    {
      StepKeepsInv(firstNonce, Now(), Step.Add);
      task := added;
      pending, added := pending + [task], added + 1;
      Drain();
    }

    /** `submit` returned or threw; says which way the caller's promise settles, if it does. */
    method SubmitEnds(i: nat, outcome: Outcome) returns (settles: Option<Settlement>)
      requires Valid() && i < |drains| && drains[i].InSubmit?
      modifies this
      ensures Valid() && Now() == After(old(Now()), Step.SubmitEnds(i, outcome))
      ensures settles == Some(Rejects) <==> outcome == Failed
      ensures settles == None <==> outcome == NonceTooLow
      ensures settles.None? ==> finished == old(finished)
      ensures settles.Some? ==>
                && |finished| == |old(finished)| + 1 && finished == old(finished) + [finished[|old(finished)|]]
                && finished[|old(finished)|].task == old(drains)[i].task
                && SettlesAs(outcome, finished[|old(finished)|].fate)
      ensures nonce == old(nonce) + (if outcome == Sent then 1 else 0)
    {
      hide Inv;
      StepKeepsInv(firstNonce, Now(), Step.SubmitEnds(i, outcome));
      var task := drains[i].task;
      marks := marks + [Submitted(drains[i].nonce, outcome)];
      settles := Some(Resolves);
      if outcome == Sent {
        nonce := nonce + 1;
        finished := finished + [Ending(task, Resolved(Sent))];
      } else if outcome == AlreadyDone || outcome == Dead {
        finished := finished + [Ending(task, Resolved(outcome))];
      } else if outcome == NonceTooLow {
        drains := drains[i := InReload(task)];
        return None;
      } else {
        finished, settles := finished + [Ending(task, Rejected)], Some(Rejects);
      }
      Finish(i);
    }

    /** The nonce reload came back: its task goes back to the front. */
    method ReloadReturns(i: nat, count: int)
      requires Valid() && i < |drains| && drains[i].InReload?
      modifies this
      ensures Valid() && Now() == After(old(Now()), Step.ReloadReturns(i, count))
    {
      StepKeepsInv(firstNonce, Now(), Step.ReloadReturns(i, count));
      nonce, marks := count, marks + [Reloaded(count)];
      pending := [drains[i].task] + pending;
      Finish(i);
    }

    /** The nonce reload threw: its task is neither settled nor put back. */
    method ReloadThrows(i: nat)
      requires Valid() && i < |drains| && drains[i].InReload?
      modifies this
      ensures Valid() && Now() == After(old(Now()), Step.ReloadThrows(i))
    {
      StepKeepsInv(firstNonce, Now(), Step.ReloadThrows(i));
      finished := finished + [Ending(drains[i].task, Lost)];
      Finish(i);
    }

    method CheckReturns(i: nat)
      requires Valid() && i < |drains| && drains[i].InCheck?
      modifies this
      ensures Valid() && Now() == After(old(Now()), Step.CheckReturns(i))
    {
      StepKeepsInv(firstNonce, Now(), Step.CheckReturns(i));
      drains := Without(drains, i);
      Drain();
    }

    /** The balance check threw: no drain follows. */
    method CheckThrows(i: nat)
      requires Valid() && i < |drains| && drains[i].InCheck?
      modifies this
      ensures Valid() && Now() == After(old(Now()), Step.CheckThrows(i))
    {
      StepKeepsInv(firstNonce, Now(), Step.CheckThrows(i));
      drains, checkThrew := Without(drains, i), true;
    }
  }
}
