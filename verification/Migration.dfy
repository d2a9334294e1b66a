/**
 * The migration runner: steps executed in order, the state saved after each, a run resumed from
 * whatever the last one left on disk. A run may die at any await; what it had saved is what remains.
 */
module Migration {
  import opened Wrappers

  type Output = map<string, string>

  datatype Status = Pending | Completed | Failed

  datatype StepState = StepState(
    name: string, status: Status, output: Option<Output>, error: Option<string>, startedAt: bool, completedAt: bool)

  /** The state file. Times are kept only as set or unset. */
  datatype MigrationState = MigrationState(completedAt: bool, steps: seq<StepState>)

  /** What a step's action does. */
  datatype ActionResult = Returns(output: Output) | ReturnsNothing | Throws(message: string)

  /** How a run ends. */
  datatype Exit = StepsChanged | UnknownFrom | UnknownPause | Paused | StepFailed(at: nat) | Finished | Died

  /**
   * One call of a step's action: which step, what it was given, the state file at that moment, and what
   * it did, unless the run died first.
   */
  datatype Execution = Execution(
    step: nat, outputs: map<string, Output>, file: Option<MigrationState>, result: Option<ActionResult>)

  // ---------- State ----------

  function PendingStep(name: string): StepState {
    StepState(name, Pending, None, None, false, false)
  }

  function CreateSteps(names: seq<string>): seq<StepState> {
    seq(|names|, i requires 0 <= i < |names| => PendingStep(names[i]))
  }

  function Names(steps: seq<StepState>): seq<string> {
    seq(|steps|, i requires 0 <= i < |steps| => steps[i].name)
  }

  /** The state a run starts from: fresh, or the file with newly defined steps appended. */
  function Resumed(file: Option<MigrationState>, names: seq<string>): Option<MigrationState> {
    if file.None? then Some(MigrationState(false, CreateSteps(names)))
    else
      var s := file.value;
      if |s.steps| <= |names| && Names(s.steps) == names[..|s.steps|] then
        Some(MigrationState(s.completedAt && |s.steps| == |names|, s.steps + CreateSteps(names[|s.steps|..])))
      else None
  }

  /** An option given on the command line; the empty string counts as not given. */
  function Given(o: Option<string>): Option<string> {
    if o == Some("") then None else o
  }

  function IndexOf(names: seq<string>, name: string): (i: nat)
    ensures i <= |names|
    ensures i < |names| ==> names[i] == name
    ensures forall j | 0 <= j < i :: names[j] != name
  {
    if names == [] then 0 else if names[0] == name then 0 else 1 + IndexOf(names[1..], name)
  }

  function ResetFrom(steps: seq<StepState>, from: nat): seq<StepState> {
    seq(|steps|, i requires 0 <= i < |steps| => if i < from then steps[i] else PendingStep(steps[i].name))
  }

  /** The outputs an action sees: those of completed steps, by name. */
  function Outputs(steps: seq<StepState>): map<string, Output> {
    if steps == [] then map[]
    else
      var last := steps[|steps| - 1];
      var before := Outputs(steps[..|steps| - 1]);
      if last.status.Completed? && last.output.Some? then before[last.name := last.output.value] else before
  }

  /** How many steps, from the first on, are completed. */
  function Progress(steps: seq<StepState>): (n: nat)
    ensures n <= |steps|
    ensures forall i | 0 <= i < n :: steps[i].status.Completed?
    ensures n < |steps| ==> !steps[n].status.Completed?
  {
    if steps == [] || !steps[0].status.Completed? then 0 else 1 + Progress(steps[1..])
  }

  predicate Done(file: Option<MigrationState>, i: nat) {
    file.Some? && i < |file.value.steps| && file.value.steps[i].status.Completed?
  }

  // ---------- What every file satisfies ----------

  ghost predicate Distinct(names: seq<string>) {
    forall i, j | 0 <= i < j < |names| :: names[i] != names[j]
  }

  /** Completed steps come first, and each has an output. */
  ghost predicate CompletedFirst(steps: seq<StepState>) {
    && (forall i, j | 0 <= i < j < |steps| && steps[j].status.Completed? :: steps[i].status.Completed?)
    && (forall i | 0 <= i < |steps| && steps[i].status.Completed? :: steps[i].output.Some?)
  }

  ghost predicate Sound(file: Option<MigrationState>) {
    file.Some? ==> CompletedFirst(file.value.steps)
  }

  /** Where a run begins: the steps kept are those completed on disk before any `from`. */
  function StartOf(file: Option<MigrationState>, names: seq<string>, from: Option<string>): nat {
    var done := if file.Some? then Progress(file.value.steps) else 0;
    if Given(from).None? then done
    else
      var at := IndexOf(names, Given(from).value);
      if at < done then at else done
  }

  // ---------- What one run does ----------

  /** An action is given exactly the outputs the file records for the steps before its own. */
  ghost predicate WellFed(names: seq<string>, e: Execution) {
    && e.step < |names|
    && (forall name :: name in e.outputs <==> name in names[..e.step])
    && forall j | 0 <= j < e.step ::
         && Done(e.file, j)
         && names[j] in e.outputs
         && e.file.value.steps[j].output == Some(e.outputs[names[j]])
  }

  /** Steps below a bound that the first file has as completed stay so, with their outputs. */
  ghost predicate KeptBelow(before: Option<MigrationState>, after: Option<MigrationState>, bound: nat) {
    forall i | 0 <= i < bound && Done(before, i) ::
      Done(after, i) && after.value.steps[i].output == before.value.steps[i].output
  }

  /** An execution whose output the file has. */
  ghost predicate Recorded(file: Option<MigrationState>, e: Execution) {
    && Done(file, e.step)
    && e.result.Some? && e.result.value.Returns?
    && file.value.steps[e.step].output == Some(e.result.value.output)
  }

  /**
   * The contract of a run, however it ends: it picks up at the first step not kept, goes on step by
   * step, each fed by the file, and at most the last thing it did is missing from the file.
   */
  ghost predicate Ran(before: Option<MigrationState>, after: Option<MigrationState>, names: seq<string>,
                      from: Option<string>, ran: seq<Execution>) {
    var start := StartOf(before, names, from);
    && Sound(after)
    && KeptBelow(before, after, start)
    && (forall k | 0 <= k < |ran| :: ran[k].step == start + k && WellFed(names, ran[k]))
    && (forall k | 0 <= k < |ran| - 1 :: Recorded(after, ran[k]))
  }

  /** The pause names a step the run finds completed: the loop breaks there, and falls through. */
  predicate StopsShort(start: nat, names: seq<string>, pauseAt: Option<string>) {
    Given(pauseAt).Some? && IndexOf(names, Given(pauseAt).value) < start
  }

  /** What the file holds when a run from `start` has ended this way. */
  ghost predicate Ended(exit: Exit, after: Option<MigrationState>, names: seq<string>, pauseAt: Option<string>,
                        start: nat, ran: seq<Execution>) {
    match exit
    case Finished =>
      && after.Some? && after.value.completedAt && Names(after.value.steps) == names
      && Progress(after.value.steps) == (if StopsShort(start, names, pauseAt) then start else |names|)
      && forall k | 0 <= k < |ran| :: Recorded(after, ran[k])
    case Paused =>
      && ran != [] && Recorded(after, ran[|ran| - 1])
      && ran[|ran| - 1].step < |names| && Given(pauseAt) == Some(names[ran[|ran| - 1].step])
    case StepFailed(at) =>
      && ran != [] && ran[|ran| - 1].step == at
      && after.Some? && Progress(after.value.steps) == at < |after.value.steps| && after.value.steps[at].status.Failed?
    case Died => true
    case _ => ran == []
  }

  // ---------- What a run does, step by step ----------

  /*
   * A run is determined by what the actions do and by how long it lives. `lives` counts the points it
   * survives: one for each action it waits for and one before each save. Dying anywhere between two such
   * points leaves the same file as dying at the next.
   */

  /** The state in memory after a step whose action returned. */
  function CompletedStep(step: StepState, output: Output): StepState {
    step.(status := Completed, output := Some(output), error := None, startedAt := true, completedAt := true)
  }

  /** A step whose action threw, or returned nothing and tripped the code that prints its output. */
  function FailedStep(step: StepState, result: ActionResult): StepState
    requires !result.Returns?
  {
    match result
    case Throws(message) => step.(status := Failed, error := Some(message), startedAt := true)
    case ReturnsNothing =>
      StepState(step.name, Failed, None, Some("Cannot convert undefined or null to object"), true, true)
  }

  /** Where one step leaves a run: how it ended it, if it did, with what in memory and on disk. */
  datatype StepEnd = StepEnd(exit: Option<Exit>, state: MigrationState, file: Option<MigrationState>, lives: nat)

  function ExecutedStep(file: Option<MigrationState>, before: MigrationState, i: nat, names: seq<string>,
                        pauseAt: Option<string>, actions: nat -> ActionResult, lives: nat): StepEnd
    requires i < |names| == |before.steps|
  {
    if lives == 0 then StepEnd(Some(Died), before, file, 0)
    else
      var result := actions(i);
      var step := if result.Returns? then CompletedStep(before.steps[i], result.output)
                  else FailedStep(before.steps[i], result);
      var state := before.(steps := before.steps[i := step]);
      if lives == 1 then StepEnd(Some(Died), state, file, 0)
      else
        StepEnd(if !result.Returns? then Some(StepFailed(i))
                else if pauseAt == Some(names[i]) then Some(Paused) else None,
                state, Some(state), lives - 2)
  }

  /** The end of the loop: the state is stamped complete and saved. */
  function Stamping(file: Option<MigrationState>, state: MigrationState, lives: nat): (Exit, Option<MigrationState>) {
    if lives == 0 then (Died, file) else (Finished, Some(state.(completedAt := true)))
  }

  /** The loop over steps from the `i`-th on. */
  function Looping(file: Option<MigrationState>, state: MigrationState, i: nat, names: seq<string>,
                   pauseAt: Option<string>, actions: nat -> ActionResult, lives: nat)
    : (Exit, Option<MigrationState>)
    requires i <= |names| == |state.steps|
    decreases |names| - i
  {
    if i == |names| then Stamping(file, state, lives)
    else if state.steps[i].status.Completed? then
      if pauseAt == Some(names[i]) then Stamping(file, state, lives)
      else Looping(file, state, i + 1, names, pauseAt, actions, lives)
    else
      var end := ExecutedStep(file, state, i, names, pauseAt, actions, lives);
      if end.exit.Some? then (end.exit.value, end.file)
      else Looping(end.file, end.state, i + 1, names, pauseAt, actions, end.lives)
  }

  /** From the state a run goes on with, saved or not. */
  function Continued(file: Option<MigrationState>, state: MigrationState, names: seq<string>,
                     pauseAt: Option<string>, actions: nat -> ActionResult, lives: nat)
    : (Exit, Option<MigrationState>)
    requires |names| == |state.steps|
  {
    if Unknown(names, pauseAt) then (UnknownPause, file)
    else Looping(file, state, 0, names, Given(pauseAt), actions, lives)
  }

  /** The option is given and names no step. */
  predicate Unknown(names: seq<string>, option: Option<string>) {
    Given(option).Some? && IndexOf(names, Given(option).value) == |names|
  }

  /** How a run ends and what file it leaves. */
  function Outcome(before: Option<MigrationState>, names: seq<string>, from: Option<string>,
                   pauseAt: Option<string>, actions: nat -> ActionResult, lives: nat)
    : (Exit, Option<MigrationState>)
  {
    if Resumed(before, names).None? then (StepsChanged, before)
    else if Unknown(names, from) then (UnknownFrom, before)
    else
      ResumedLength(before, names);
      var state := Started(before, names, from);
      if Given(from).None? then Continued(before, state, names, pauseAt, actions, lives)
      else if lives == 0 then (Died, before)
      else Continued(Some(state), state, names, pauseAt, actions, lives - 1)
  }

  /** The state a run goes into its loop with: what it resumed, reset from the step asked for. */
  function Started(before: Option<MigrationState>, names: seq<string>, from: Option<string>): MigrationState
    requires Resumed(before, names).Some?
  {
    var state := Resumed(before, names).value;
    if Given(from).None? then state
    else state.(steps := ResetFrom(state.steps, IndexOf(names, Given(from).value)))
  }

  lemma ResumedLength(file: Option<MigrationState>, names: seq<string>)
    ensures Resumed(file, names).Some? ==> |Resumed(file, names).value.steps| == |names|
  {
  }

  // ---------- Lemmas about states ----------

  lemma ProgressUnique(steps: seq<StepState>, n: nat)
    requires n <= |steps| && (forall i | 0 <= i < n :: steps[i].status.Completed?)
    requires n < |steps| ==> !steps[n].status.Completed?
    ensures Progress(steps) == n
  {
  }

  lemma {:induction false} OutputsFrom(steps: seq<StepState>, name: string)
    requires name in Outputs(steps)
    ensures exists i :: 0 <= i < |steps| && steps[i].status.Completed? && steps[i].name == name
  {
    var m := |steps| - 1;
    if steps[m].name != name || !steps[m].status.Completed? {
      OutputsFrom(steps[..m], name);
      var i :| 0 <= i < m && steps[..m][i].status.Completed? && steps[..m][i].name == name;
      assert steps[i] == steps[..m][i];
    }
  }

  lemma {:induction false} OutputsHave(steps: seq<StepState>, i: nat)
    requires i < |steps| && forall j, k | 0 <= j < k < |steps| :: steps[j].name != steps[k].name
    requires steps[i].status.Completed? && steps[i].output.Some?
    ensures steps[i].name in Outputs(steps) && Outputs(steps)[steps[i].name] == steps[i].output.value
  {
    var m := |steps| - 1;
    if i < m {
      var front := steps[..m];
      assert forall j | 0 <= j < m :: front[j] == steps[j];
      OutputsHave(front, i);
    }
  }

  /** The file records what the state in memory says of its first `n` steps. */
  ghost predicate Synced(file: Option<MigrationState>, steps: seq<StepState>, n: nat) {
    && n <= |steps|
    && forall i | 0 <= i < n :: Done(file, i) && file.value.steps[i].output == steps[i].output
  }

  /** The state in memory, with `n` steps done and the file at least as far. */
  ghost predicate Ready(file: Option<MigrationState>, names: seq<string>, steps: seq<StepState>, n: nat) {
    && Names(steps) == names
    && Progress(steps) == n
    && CompletedFirst(steps)
    && Synced(file, steps, n)
    && Sound(file)
  }

  /** In a ready state the names an action sees outputs for are those of the steps done. */
  lemma OutputNames(names: seq<string>, steps: seq<StepState>, n: nat, name: string)
    requires Names(steps) == names && Distinct(names) && Progress(steps) == n && CompletedFirst(steps)
    ensures name in Outputs(steps) <==> name in names[..n]
  {
    assert forall i | 0 <= i < |steps| :: Names(steps)[i] == steps[i].name;
    if name in Outputs(steps) {
      OutputsFrom(steps, name);
      var i :| 0 <= i < |steps| && steps[i].status.Completed? && steps[i].name == name;
      assert i < n && names[..n][i] == name;
    }
    if name in names[..n] {
      var i :| 0 <= i < n && names[..n][i] == name;
      OutputsHave(steps, i);
    }
  }

  /** Handing a ready state's outputs to the next step is handing it what the file records. */
  lemma ReadyFeeds(file: Option<MigrationState>, names: seq<string>, steps: seq<StepState>, n: nat)
    requires Ready(file, names, steps, n) && Distinct(names) && n < |names|
    ensures forall result :: WellFed(names, Execution(n, Outputs(steps), file, result))
  {
    var outputs := Outputs(steps);
    forall name ensures name in outputs <==> name in names[..n] {
      OutputNames(names, steps, n, name);
    }
    assert forall i | 0 <= i < |steps| :: Names(steps)[i] == steps[i].name;
    forall i | 0 <= i < n
      ensures Done(file, i) && names[i] in outputs && file.value.steps[i].output == Some(outputs[names[i]])
    {
      OutputsHave(steps, i);
    }
  }

  lemma FreshReady(names: seq<string>)
    ensures Ready(None, names, CreateSteps(names), 0)
  {
    ProgressUnique(CreateSteps(names), 0);
    assert Names(CreateSteps(names)) == names;
  }

  lemma AppendedReady(file: MigrationState, names: seq<string>)
    requires CompletedFirst(file.steps) && !Misplaced(Some(file), names)
    ensures Resumed(Some(file), names).Some? && ResumesAs(Some(file), names, Resumed(Some(file), names).value)
    ensures Ready(Some(file), names, Resumed(Some(file), names).value.steps, Progress(file.steps))
  {
    ResumedIff(Some(file), names);
    var was, steps := file.steps, Resumed(Some(file), names).value.steps;
    var n := |was|;
    forall i | 0 <= i < |names|
      ensures steps[i] == if i < n then was[i] else PendingStep(names[i])
      ensures steps[i].name == names[i]
    {
      if i < n {
        assert Names(was)[i] == names[..n][i];
      } else {
        assert names[n..][i - n] == names[i];
      }
    }
    ProgressUnique(steps, Progress(was));
    assert Names(steps) == names;
  }

  lemma ResumedReady(file: Option<MigrationState>, names: seq<string>)
    requires Sound(file) && Resumed(file, names).Some?
    ensures var steps := Resumed(file, names).value.steps;
            Ready(file, names, steps, if file.Some? then Progress(file.value.steps) else 0)
  {
    ResumedIff(file, names);
    if file.Some? {
      AppendedReady(file.value, names);
    } else {
      FreshReady(names);
    }
  }

  lemma ResetReady(
      file: Option<MigrationState>, names: seq<string>, steps: seq<StepState>, n: nat, at: nat, stamp: bool)
    requires Ready(file, names, steps, n) && at <= |steps|
    ensures var m := if at < n then at else n;
            && Ready(file, names, ResetFrom(steps, at), m)
            && Ready(Some(MigrationState(stamp, ResetFrom(steps, at))), names, ResetFrom(steps, at), m)
            && (forall i | 0 <= i < m :: ResetFrom(steps, at)[i] == steps[i])
  {
    var m := if at < n then at else n;
    var reset := ResetFrom(steps, at);
    ProgressUnique(reset, m);
    assert Names(reset) == Names(steps);
  }

  lemma CompletedReady(
      file: Option<MigrationState>, names: seq<string>, steps: seq<StepState>, n: nat, done: StepState,
      stamp: bool)
    requires Ready(file, names, steps, n) && n < |steps|
    requires done.name == steps[n].name && done.status.Completed? && done.output.Some?
    ensures Ready(Some(MigrationState(stamp, steps[n := done])), names, steps[n := done], n + 1)
  {
    var more := steps[n := done];
    assert Names(more) == Names(steps);
    ProgressUnique(more, n + 1);
  }

  lemma StepCompletes(
      file: Option<MigrationState>, names: seq<string>, before: MigrationState, i: nat, done: StepState,
      e: Execution)
    requires Ready(file, names, before.steps, i) && i < |before.steps|
    requires done.name == before.steps[i].name && done.status.Completed?
    requires e.step == i && e.result.Some? && e.result.value.Returns? && done.output == Some(e.result.value.output)
    ensures var now := Some(before.(steps := before.steps[i := done]));
            && Ready(now, names, now.value.steps, i + 1)
            && Synced(now, before.steps, i)
            && Kept(now.value.steps, e) && Recorded(now, e)
            && forall k | 0 <= k < i :: now.value.steps[k] == before.steps[k]
  {
    CompletedReady(file, names, before.steps, i, done, before.completedAt);
  }

  lemma FailedSynced(
      file: Option<MigrationState>, names: seq<string>, steps: seq<StepState>, n: nat, failed: StepState,
      stamp: bool)
    requires Ready(file, names, steps, n) && n < |steps| && !failed.status.Completed?
    ensures CompletedFirst(steps[n := failed])
    ensures Synced(Some(MigrationState(stamp, steps[n := failed])), steps, n)
    ensures Progress(steps[n := failed]) == n
  {
    ProgressUnique(steps[n := failed], n);
  }

  /** The steps in memory have an execution's output. */
  ghost predicate Kept(steps: seq<StepState>, e: Execution) {
    && e.step < |steps|
    && steps[e.step].status.Completed?
    && e.result.Some? && e.result.value.Returns?
    && steps[e.step].output == Some(e.result.value.output)
  }

  lemma KeptIsRecorded(file: Option<MigrationState>, steps: seq<StepState>, n: nat, e: Execution)
    requires Synced(file, steps, n) && e.step < n && Kept(steps, e)
    ensures Recorded(file, e)
  {
    assert Done(file, e.step);
  }

  /** Executions one after the other from `start`, each fed by the file and kept in memory. */
  ghost predicate Executed(names: seq<string>, steps: seq<StepState>, start: nat, ran: seq<Execution>) {
    forall k | 0 <= k < |ran| :: ran[k].step == start + k && WellFed(names, ran[k]) && Kept(steps, ran[k])
  }

  function Furthest(start: nat, i: nat): nat {
    if i < start then start else i
  }

  /** Where the loop stands before its `i`-th step. */
  ghost predicate Looped(
      file: Option<MigrationState>, names: seq<string>, initial: seq<StepState>, steps: seq<StepState>,
      start: nat, i: nat, ran: seq<Execution>) {
    && Ready(file, names, steps, Furthest(start, i))
    && start <= |initial| == |steps|
    && (forall k | 0 <= k < start :: steps[k] == initial[k])
    && |ran| == Furthest(start, i) - start
    && Executed(names, steps, start, ran)
  }

  lemma LoopedStart(file: Option<MigrationState>, names: seq<string>, initial: seq<StepState>)
    requires Ready(file, names, initial, Progress(initial))
    ensures Looped(file, names, initial, initial, Progress(initial), 0, []) && |initial| == |names|
  {
    assert Names(initial) == names;
  }

  /** A step the loop finds completed was so from the start; the first other one is where the state is ready. */
  lemma LoopedAt(file: Option<MigrationState>, names: seq<string>, initial: seq<StepState>, steps: seq<StepState>,
                 start: nat, i: nat, ran: seq<Execution>)
    requires Looped(file, names, initial, steps, start, i, ran) && i < |steps|
    ensures steps[i].status.Completed? ==> i < start && Looped(file, names, initial, steps, start, i + 1, ran)
    ensures !steps[i].status.Completed? ==> start <= i && Ready(file, names, steps, i)
  {
  }

  lemma LoopedByStep(file: Option<MigrationState>, names: seq<string>, initial: seq<StepState>, before: seq<StepState>,
                     after: seq<StepState>, start: nat, i: nat, ran: seq<Execution>, e: Execution,
                     now: Option<MigrationState>)
    requires Looped(file, names, initial, before, start, i, ran) && start <= i < |before|
    requires Ready(now, names, after, i + 1) && forall k | 0 <= k < i :: after[k] == before[k]
    requires e.step == i && WellFed(names, e) && Kept(after, e)
    ensures Looped(now, names, initial, after, start, i + 1, ran + [e])
  {
    var more := ran + [e];
    forall k | 0 <= k < |more| ensures more[k].step == start + k && WellFed(names, more[k]) && Kept(after, more[k]) {
      if k < |ran| {
        assert more[k] == ran[k] && Kept(before, ran[k]);
      }
    }
  }

  /** What a run has recorded once its last step is underway: everything before it. */
  lemma RecordedSoFar(file: Option<MigrationState>, names: seq<string>, steps: seq<StepState>, start: nat, i: nat,
                      ran: seq<Execution>)
    requires Executed(names, steps, start, ran) && Synced(file, steps, i) && start + |ran| <= i
    ensures forall k | 0 <= k < |ran| :: Recorded(file, ran[k])
  {
    forall k | 0 <= k < |ran| ensures Recorded(file, ran[k]) {
      KeptIsRecorded(file, steps, i, ran[k]);
    }
  }

  /** The state in memory a run goes into its loop with. */
  ghost predicate StartsFrom(before: Option<MigrationState>, file: Option<MigrationState>, names: seq<string>,
                             from: Option<string>, steps: seq<StepState>) {
    && Progress(steps) == StartOf(before, names, from)
    && Ready(file, names, steps, Progress(steps))
    && KeptIn(before, steps, Progress(steps))
  }

  /** Steps in memory below a bound are as an earlier file had them completed. */
  ghost predicate KeptIn(before: Option<MigrationState>, steps: seq<StepState>, bound: nat) {
    && bound <= |steps|
    && forall i | 0 <= i < bound && Done(before, i) :: steps[i].output == before.value.steps[i].output
  }

  lemma StartsResumed(before: Option<MigrationState>, names: seq<string>, from: Option<string>)
    requires Sound(before) && Resumed(before, names).Some? && Given(from).None?
    ensures StartsFrom(before, before, names, from, Resumed(before, names).value.steps)
  {
    ResumedReady(before, names);
  }

  lemma StartsReset(before: Option<MigrationState>, names: seq<string>, from: Option<string>, stamp: bool)
    requires Sound(before) && Resumed(before, names).Some?
    requires Given(from).Some? && IndexOf(names, Given(from).value) < |names|
    ensures var at := IndexOf(names, Given(from).value);
            var steps := ResetFrom(Resumed(before, names).value.steps, at);
            StartsFrom(before, Some(MigrationState(stamp, steps)), names, from, steps)
  {
    ResumedReady(before, names);
    var steps := Resumed(before, names).value.steps;
    ResetReady(before, names, steps, Progress(steps), IndexOf(names, Given(from).value), stamp);
  }

  lemma NothingRan(before: Option<MigrationState>, names: seq<string>, from: Option<string>)
    requires Sound(before)
    ensures Ran(before, before, names, from, [])
  {
  }

  lemma StartedRan(before: Option<MigrationState>, file: Option<MigrationState>, names: seq<string>,
                   from: Option<string>, steps: seq<StepState>)
    requires StartsFrom(before, file, names, from, steps)
    ensures Ran(before, file, names, from, [])
  {
    assert forall i | 0 <= i < Progress(steps) :: Done(file, i);
  }

  /** What the loop leaves whichever way it is left. */
  ghost predicate AfterLoop(
      file: Option<MigrationState>, names: seq<string>, initial: seq<StepState>, ran: seq<Execution>) {
    var start := Progress(initial);
    && Sound(file)
    && Synced(file, initial, start)
    && (forall k | 0 <= k < |ran| :: ran[k].step == start + k && WellFed(names, ran[k]))
    && (forall k | 0 <= k < |ran| - 1 :: Recorded(file, ran[k]))
  }

  lemma LoopRan(before: Option<MigrationState>, started: Option<MigrationState>, file: Option<MigrationState>,
                names: seq<string>, from: Option<string>, steps: seq<StepState>, ran: seq<Execution>)
    requires StartsFrom(before, started, names, from, steps) && AfterLoop(file, names, steps, ran)
    ensures Ran(before, file, names, from, ran)
  {
    assert forall i | 0 <= i < Progress(steps) :: Done(file, i);
  }

  /** No step passed over as completed is the one to pause at. */
  ghost predicate NoPauseBefore(names: seq<string>, pauseAt: Option<string>, start: nat, i: nat) {
    pauseAt.Some? ==> forall k | 0 <= k < i && k < start && k < |names| :: names[k] != pauseAt.value
  }

  /** The loop ran out of steps, or broke at a completed one; the state is stamped complete either way. */
  lemma LoopFinishes(file: Option<MigrationState>, names: seq<string>, initial: seq<StepState>, steps: seq<StepState>,
                     start: nat, i: nat, ran: seq<Execution>, pauseAt: Option<string>)
    requires start == Progress(initial) && Looped(file, names, initial, steps, start, i, ran)
    requires Given(pauseAt) == pauseAt && NoPauseBefore(names, pauseAt, start, i) && i <= |names|
    requires i == |names| || (i < start && pauseAt == Some(names[i]))
    ensures var after := Some(MigrationState(true, steps));
            AfterLoop(after, names, initial, ran) && Ended(Finished, after, names, pauseAt, start, ran)
  {
    var after := Some(MigrationState(true, steps));
    assert Names(initial) == Names(steps) ==> |initial| == |steps|;
    assert Synced(after, steps, Furthest(start, i));
    RecordedSoFar(after, names, steps, start, start + |ran|, ran);
  }

  /** The process died before the final save: what the loop did is in the file all the same. */
  lemma LoopDies(file: Option<MigrationState>, names: seq<string>, initial: seq<StepState>, steps: seq<StepState>,
                 start: nat, i: nat, ran: seq<Execution>, pauseAt: Option<string>)
    requires start == Progress(initial) && Looped(file, names, initial, steps, start, i, ran)
    ensures AfterLoop(file, names, initial, ran) && Ended(Died, file, names, pauseAt, start, ran)
  {
    assert Synced(file, steps, Furthest(start, i));
    RecordedSoFar(file, names, steps, start, start + |ran|, ran);
  }

  lemma LoopStops(was: Option<MigrationState>, now: Option<MigrationState>, names: seq<string>,
                  initial: seq<StepState>, steps: seq<StepState>, start: nat, i: nat, ran: seq<Execution>,
                  e: Execution, exit: Exit, pauseAt: Option<string>)
    requires start == Progress(initial) && Looped(was, names, initial, steps, start, i, ran) && start <= i < |names|
    requires Sound(now) && Synced(now, steps, i)
    requires e.step == i && WellFed(names, e) && Stopped(exit, now, names, pauseAt, i, e) && Given(pauseAt) == pauseAt
    ensures AfterLoop(now, names, initial, ran + [e]) && Ended(exit, now, names, pauseAt, start, ran + [e])
  {
    RecordedSoFar(now, names, steps, start, i, ran);
    assert forall k | 0 <= k < |ran| :: (ran + [e])[k] == ran[k];
  }

  /** How a step that ends the run leaves the file. */
  ghost predicate Stopped(
      exit: Exit, file: Option<MigrationState>, names: seq<string>, pauseAt: Option<string>, i: nat,
      e: Execution)
    requires i < |names|
  {
    match exit
    case Died => true
    case Paused => Recorded(file, e) && pauseAt == Some(names[i])
    case StepFailed(at) =>
      && at == i && file.Some? && i < |file.value.steps|
      && Progress(file.value.steps) == i && file.value.steps[i].status.Failed?
    case _ => false
  }

  // ---------- The runner ----------

  class Runner {
    var file: Option<MigrationState>
    ghost var ran: seq<Execution>

    constructor ()
      ensures file.None? && Sound(file)
    {
      file, ran := None, [];
    }

    method SaveState(state: MigrationState)
      modifies this`file
      ensures file == Some(state)
    {
      file := Some(state);
    }

    /**
     * One run: resume or create, reset from a step if asked to, then execute what is not completed.
     * `actions` is what each step's action does and `lives` how long the run lives.
     */
    method RunMigration(names: seq<string>, from: Option<string>, pauseAt: Option<string>,
                        actions: nat -> ActionResult, lives: nat) returns (exit: Exit)
      requires Sound(file) && Distinct(names)
      modifies this
      ensures (exit, file) == Outcome(old(file), names, from, pauseAt, actions, lives)
      ensures exit == StepsChanged <==> Misplaced(old(file), names)
      ensures Ran(old(file), file, names, from, ran)
      ensures Ended(exit, file, names, pauseAt, StartOf(old(file), names, from), ran)
      ensures forall k | 0 <= k < |ran| && ran[k].result.Some? :: ran[k].result.value == actions(ran[k].step)
    {
      ran := [];
      ghost var before := file;
      ResumedLength(file, names);
      RefusedIff(file, names, from, pauseAt, actions, lives);
      var refused, state, left := Prepare(names, from, lives);
      if refused.Some? {
        return refused.value;
      }
      ghost var started := file;
      if Unknown(names, pauseAt) {
        StartedRan(before, started, names, from, state.steps);
        return UnknownPause;
      }
      exit := Execute(names, Given(pauseAt), state, actions, left);
      LoopRan(before, started, file, names, from, state.steps, ran);
    }

    /** Load or create the state and honour `--from`, saving the reset. */
    method Prepare(names: seq<string>, from: Option<string>, lives: nat)
      returns (refused: Option<Exit>, state: MigrationState, left: nat)
      requires Sound(file)
      modifies this`file
      ensures refused == Some(StepsChanged) <==> Misplaced(old(file), names)
      ensures refused == Some(UnknownFrom) <==> !Misplaced(old(file), names) && IsGiven(from) && from.value !in names
      ensures refused.None? && !IsGiven(from) ==> ResumesAs(old(file), names, state)
      ensures refused == Some(Died) <==>
                !Misplaced(old(file), names) && IsGiven(from) && from.value in names && lives == 0
      ensures refused.Some? ==> file == old(file) && Ran(old(file), file, names, from, [])
                                && (refused.value.StepsChanged? || refused.value.UnknownFrom? || refused.value.Died?)
      ensures refused.None? ==>
                && Resumed(old(file), names).Some? && state == Started(old(file), names, from)
                && StartsFrom(old(file), file, names, from, state.steps)
                && file == (if Given(from).Some? then Some(state) else old(file))
                && left == (if Given(from).Some? then lives - 1 else lives)
    {
      NothingRan(file, names, from);
      ResumedIff(file, names);
      var resumed := Resumed(file, names);
      state, left := MigrationState(false, []), lives;
      if resumed.None? {
        return Some(StepsChanged), state, left;
      }
      state := resumed.value;
      if Given(from).None? {
        StartsResumed(file, names, from);
        return None, state, left;
      }
      var at := IndexOf(names, Given(from).value);
      if at == |names| {
        return Some(UnknownFrom), state, left;
      }
      StartsReset(file, names, from, state.completedAt);
      state := state.(steps := ResetFrom(state.steps, at));
      if lives == 0 {
        return Some(Died), state, left;
      }
      SaveState(state);
      refused, left := None, lives - 1;
    }

    /** The loop over steps. */
    method Execute(names: seq<string>, pauseAt: Option<string>, initial: MigrationState,
                   actions: nat -> ActionResult, lives: nat) returns (exit: Exit)
      requires Distinct(names) && ran == [] && Given(pauseAt) == pauseAt && |initial.steps| == |names|
      requires Ready(file, names, initial.steps, Progress(initial.steps))
      modifies this
      ensures (exit, file) == Looping(old(file), initial, 0, names, pauseAt, actions, lives)
      ensures AfterLoop(file, names, initial.steps, ran)
      ensures Ended(exit, file, names, pauseAt, Progress(initial.steps), ran)
      ensures forall k | 0 <= k < |ran| && ran[k].result.Some? :: ran[k].result.value == actions(ran[k].step)
    {
      hide Looped, Ready, Kept, WellFed, AfterLoop, Ended, Stopped, Synced, Sound, ExecutedStep, Outputs, Names,
        Progress, CompletedFirst, Recorded;
      var state, left := initial, lives;
      ghost var start, at := Progress(initial.steps), |names|;
      LoopedStart(file, names, initial.steps);
      for i := 0 to |names|
        invariant Looped(file, names, initial.steps, state.steps, start, i, ran)
        invariant NoPauseBefore(names, pauseAt, start, i) && at == |names| == |state.steps|
        invariant Looping(old(file), initial, 0, names, pauseAt, actions, lives) ==
                  Looping(file, state, i, names, pauseAt, actions, left)
        invariant forall k | 0 <= k < |ran| && ran[k].result.Some? :: ran[k].result.value == actions(ran[k].step)
      {
        LoopedAt(file, names, initial.steps, state.steps, start, i, ran);
        if state.steps[i].status.Completed? {
          if pauseAt == Some(names[i]) {
            at := i;
            break;
          }
        } else {
          ghost var was, so := file, ran;
          var outcome, next, rest := ExecuteStep(names, pauseAt, state, i, actions, left);
          if outcome.Some? {
            LoopStops(was, file, names, initial.steps, state.steps, start, i, so, ran[|so|], outcome.value, pauseAt);
            return outcome.value;
          }
          LoopedByStep(was, names, initial.steps, state.steps, next.steps, start, i, so, ran[|so|], file);
          state, left := next, rest;
        }
      }
      if left == 0 {
        LoopDies(file, names, initial.steps, state.steps, start, at, ran, pauseAt);
        return Died;
      }
      LoopFinishes(file, names, initial.steps, state.steps, start, at, ran, pauseAt);
      state := state.(completedAt := true);
      SaveState(state);
      exit := Finished;
    }

    /** One step that is not completed: its action, and what is saved of it. */
    method ExecuteStep(names: seq<string>, pauseAt: Option<string>, before: MigrationState, i: nat,
                       actions: nat -> ActionResult, lives: nat)
      returns (exit: Option<Exit>, state: MigrationState, left: nat)
      requires Distinct(names) && i < |names| == |before.steps| && Ready(file, names, before.steps, i)
      modifies this
      ensures StepEnd(exit, state, file, left) == ExecutedStep(old(file), before, i, names, pauseAt, actions, lives)
      ensures |ran| == |old(ran)| + 1 && ran == old(ran) + [ran[|old(ran)|]]
      ensures ran[|old(ran)|].step == i && WellFed(names, ran[|old(ran)|])
      ensures ran[|old(ran)|].result == if lives == 0 then None else Some(actions(i))
      ensures Sound(file) && Synced(file, before.steps, i)
      ensures exit.None? ==>
                && Ready(file, names, state.steps, i + 1) && Kept(state.steps, ran[|old(ran)|])
                && forall k | 0 <= k < i :: state.steps[k] == before.steps[k]
      ensures exit.Some? ==> Stopped(exit.value, file, names, pauseAt, i, ran[|old(ran)|])
    {
      state, left := before, 0;
      ReadyFeeds(file, names, before.steps, i);
      if lives == 0 {
        ran := ran + [Execution(i, Outputs(before.steps), file, None)];
        return Some(Died), state, left;
      }
      var result := actions(i);
      ran := ran + [Execution(i, Outputs(before.steps), file, Some(result))];
      if result.Returns? {
        var done := CompletedStep(before.steps[i], result.output);
        StepCompletes(file, names, before, i, done, ran[|ran| - 1]);
        state := before.(steps := before.steps[i := done]);
        if lives == 1 {
          return Some(Died), state, left;
        }
        SaveState(state);
        exit := if pauseAt == Some(names[i]) then Some(Paused) else None;
      } else {
        var failed := FailedStep(before.steps[i], result);
        FailedSynced(file, names, before.steps, i, failed, before.completedAt);
        state := before.(steps := before.steps[i := failed]);
        if lives == 1 {
          return Some(Died), state, left;
        }
        SaveState(state);
        exit := Some(StepFailed(i));
      }
      left := lives - 2;
    }
  }

  // ---------- Sequences of runs ----------

  /** What one run was asked to do, and what it met with. */
  datatype Request = Request(
    names: seq<string>, from: Option<string>, pauseAt: Option<string>, actions: nat -> ActionResult, lives: nat)

  /** Runs one after the other: the file before and after each, and what each executed. */
  ghost predicate Runs(files: seq<Option<MigrationState>>, requests: seq<Request>, rans: seq<seq<Execution>>) {
    && |files| == |requests| + 1 && |rans| == |requests|
    && Sound(files[0])
    && forall r | 0 <= r < |requests| :: Ran(files[r], files[r + 1], requests[r].names, requests[r].from, rans[r])
  }

  /** Any sequence of runs, by whoever starts them, with whatever steps and options. */
  method Session(runner: Runner, requests: seq<Request>)
    returns (ghost files: seq<Option<MigrationState>>, ghost rans: seq<seq<Execution>>)
    requires Sound(runner.file) && forall r | 0 <= r < |requests| :: Distinct(requests[r].names)
    modifies runner
    ensures Runs(files, requests, rans) && files[0] == old(runner.file) && files[|requests|] == runner.file
  {
    hide Outcome, Ended, Ran, Runs;
    files, rans := [runner.file], [];
    RunsNone(runner.file);
    for r := 0 to |requests|
      invariant Runs(files, requests[..r], rans) && |files| == r + 1
      invariant files[0] == old(runner.file) && files[r] == runner.file && Sound(runner.file)
    {
      var q := requests[r];
      var exit := runner.RunMigration(q.names, q.from, q.pauseAt, q.actions, q.lives);
      RunsOneMore(files, requests[..r], rans, q, runner.file, runner.ran);
      assert requests[..r + 1] == requests[..r] + [q];
      files, rans := files + [runner.file], rans + [runner.ran];
    }
    assert requests[..|requests|] == requests;
  }

  lemma RunsNone(file: Option<MigrationState>)
    requires Sound(file)
    ensures Runs([file], [], [])
  {
  }

  lemma RunsOneMore(files: seq<Option<MigrationState>>, requests: seq<Request>, rans: seq<seq<Execution>>,
                    q: Request, after: Option<MigrationState>, ran: seq<Execution>)
    requires Runs(files, requests, rans) && |files| == |requests| + 1
    requires Ran(files[|requests|], after, q.names, q.from, ran)
    ensures Runs(files + [after], requests + [q], rans + [ran]) && Sound(after)
  {
    var more, asked, all := files + [after], requests + [q], rans + [ran];
    forall r | 0 <= r < |asked| ensures Ran(more[r], more[r + 1], asked[r].names, asked[r].from, all[r]) {
      if r < |requests| {
        assert Ran(files[r], files[r + 1], requests[r].names, requests[r].from, rans[r]);
      }
    }
  }

  /** `--from` resets a step only if it names that step or an earlier one. */
  predicate Spares(request: Request, i: nat) {
    Given(request.from).Some? ==> i < IndexOf(request.names, Given(request.from).value)
  }

  lemma DoneIsBelowStart(file: Option<MigrationState>, request: Request, i: nat)
    requires Sound(file) && Done(file, i) && Spares(request, i)
    ensures i < StartOf(file, request.names, request.from)
  {
  }

  /**
   * A step completed on disk is never run again, and keeps its output, through any runs and crashes
   * none of which was asked to start over from it or an earlier step.
   */
  lemma {:induction false} NeverRunAgain(
      files: seq<Option<MigrationState>>, requests: seq<Request>, rans: seq<seq<Execution>>, a: nat, b: nat, i: nat)
    requires Runs(files, requests, rans) && a <= b < |files| && Done(files[a], i)
    requires forall r | a <= r < b :: Spares(requests[r], i)
    ensures Sound(files[b]) && Done(files[b], i)
    ensures files[b].value.steps[i].output == files[a].value.steps[i].output
    ensures forall r, k | a <= r < b && 0 <= k < |rans[r]| :: rans[r][k].step != i
  {
    SoundThroughout(files, requests, rans, a);
    if a < b {
      NeverRunAgain(files, requests, rans, a, b - 1, i);
      DoneIsBelowStart(files[b - 1], requests[b - 1], i);
      assert Ran(files[b - 1], files[b], requests[b - 1].names, requests[b - 1].from, rans[b - 1]);
    }
  }

  lemma SoundThroughout(files: seq<Option<MigrationState>>, requests: seq<Request>, rans: seq<seq<Execution>>, r: nat)
    requires Runs(files, requests, rans) && r < |files|
    ensures Sound(files[r])
  {
    if r > 0 {
      assert Ran(files[r - 1], files[r], requests[r - 1].names, requests[r - 1].from, rans[r - 1]);
    }
  }

  /** Naming a step past the first one not completed changes nothing about where a run starts. */
  lemma FromAheadIsNoFrom(file: Option<MigrationState>, names: seq<string>, from: string)
    requires file.Some? && from != "" && IndexOf(names, from) > Progress(file.value.steps)
    ensures StartOf(file, names, Some(from)) == StartOf(file, names, None) == Progress(file.value.steps)
  {
  }

  /**
   * The advice printed after a failure, to skip the failed step with `--from` the next one, does not skip
   * it: a run that follows it, whatever steps were appended meanwhile, runs the failed step again before
   * anything else.
   */
  lemma FromAheadDoesNotSkip(
      file: Option<MigrationState>, names: seq<string>, pauseAt: Option<string>, start: nat, ran: seq<Execution>,
      at: nat, after: Option<MigrationState>, more: seq<string>, rerun: seq<Execution>)
    requires Ended(StepFailed(at), file, names, pauseAt, start, ran) && at + 1 < |names|
    requires names <= more && Distinct(more) && names[at + 1] != ""
    requires Ran(file, after, more, Some(names[at + 1]), rerun)
    ensures rerun != [] ==> rerun[0].step == at
  {
    assert more[at + 1] == names[at + 1];
    assert IndexOf(more, names[at + 1]) == at + 1;
    FromAheadIsNoFrom(file, more, names[at + 1]);
  }

  // ---------- Why a run ends as it does ----------

  /** The run cannot go past a step: its action fails, or it is the one to pause at. */
  predicate StopsAt(names: seq<string>, pauseAt: Option<string>, actions: nat -> ActionResult, at: nat)
    requires at < |names|
  {
    !actions(at).Returns? || pauseAt == Some(names[at])
  }

  ghost predicate PassesBetween(names: seq<string>, pauseAt: Option<string>, actions: nat -> ActionResult,
                                from: nat, at: nat) {
    at <= |names| && forall i | from <= i < at :: !StopsAt(names, pauseAt, actions, i)
  }

  /** The cause of each way a run ends that is not cut short, once it has got into its loop. */
  ghost predicate LoopCause(exit: Exit, names: seq<string>, pauseAt: Option<string>, start: nat,
                            actions: nat -> ActionResult) {
    match exit
    case Finished =>
      StopsShort(start, names, pauseAt) || PassesBetween(names, pauseAt, actions, start, |names|)
    case StepFailed(at) =>
      && !StopsShort(start, names, pauseAt) && start <= at < |names|
      && !actions(at).Returns? && PassesBetween(names, pauseAt, actions, start, at)
    case Paused =>
      && !StopsShort(start, names, pauseAt)
      && exists at :: start <= at < |names| && actions(at).Returns? && pauseAt == Some(names[at])
                      && PassesBetween(names, pauseAt, actions, start, at)
    case _ => false
  }

  /** The cause of every exit but dying, from the file, the options and what the actions do. */
  ghost predicate Cause(exit: Exit, before: Option<MigrationState>, names: seq<string>, from: Option<string>,
                        pauseAt: Option<string>, actions: nat -> ActionResult) {
    if Resumed(before, names).None? then exit == StepsChanged
    else if Unknown(names, from) then exit == UnknownFrom
    else if Unknown(names, pauseAt) then exit == UnknownPause
    else LoopCause(exit, names, Given(pauseAt), StartOf(before, names, from), actions)
  }

  /** The steps from the `i`-th on are completed exactly up to `start`. */
  ghost predicate CompletedTo(steps: seq<StepState>, i: nat, start: nat) {
    forall k | i <= k < |steps| :: steps[k].status.Completed? <==> k < start
  }

  lemma {:induction false} LoopEndsByCause(
      file: Option<MigrationState>, state: MigrationState, i: nat, names: seq<string>, pauseAt: Option<string>,
      actions: nat -> ActionResult, lives: nat, start: nat)
    requires i <= |names| == |state.steps| && start <= |names| && CompletedTo(state.steps, i, start)
    requires Given(pauseAt) == pauseAt && NoPauseBefore(names, pauseAt, start, i)
    requires PassesBetween(names, pauseAt, actions, start, i)
    ensures var exit := Looping(file, state, i, names, pauseAt, actions, lives).0;
      && (exit == Died || LoopCause(exit, names, pauseAt, start, actions))
      && (exit == Died ==> lives <= 2 * (|names| - i))
    decreases |names| - i
  {
    if i == |names| {
      NoStopShort(names, pauseAt, start, i);
    } else if state.steps[i].status.Completed? {
      if pauseAt != Some(names[i]) {
        LoopEndsByCause(file, state, i + 1, names, pauseAt, actions, lives, start);
      }
    } else {
      NoStopShort(names, pauseAt, start, i);
      var end := ExecutedStep(file, state, i, names, pauseAt, actions, lives);
      if end.exit.None? {
        LoopEndsByCause(end.file, end.state, i + 1, names, pauseAt, actions, end.lives, start);
      }
    }
  }

  lemma NoStopShort(names: seq<string>, pauseAt: Option<string>, start: nat, i: nat)
    requires Given(pauseAt) == pauseAt && NoPauseBefore(names, pauseAt, start, i) && start <= i <= |names|
    ensures !StopsShort(start, names, pauseAt)
  {
  }

  lemma StartedCompletedTo(before: Option<MigrationState>, names: seq<string>, from: Option<string>)
    requires Sound(before) && Resumed(before, names).Some? && !Unknown(names, from)
    ensures var steps := Started(before, names, from).steps;
      && |steps| == |names| && StartOf(before, names, from) <= |names|
      && CompletedTo(steps, 0, StartOf(before, names, from)) && CompletedFirst(steps)
      && Progress(steps) == StartOf(before, names, from)
  {
    ResumedLength(before, names);
    ResumedReady(before, names);
    var resumed := Resumed(before, names).value.steps;
    if Given(from).Some? {
      ResetReady(before, names, resumed, Progress(resumed), IndexOf(names, Given(from).value), false);
    }
  }

  /** A run ends for its cause or dies, and it dies only if it does not live long enough. */
  lemma EndsByCause(before: Option<MigrationState>, names: seq<string>, from: Option<string>, pauseAt: Option<string>,
                    actions: nat -> ActionResult, lives: nat)
    requires Sound(before)
    ensures var exit := Outcome(before, names, from, pauseAt, actions, lives).0;
      && (exit == Died || Cause(exit, before, names, from, pauseAt, actions))
      && (exit == Died ==> lives <= 2 * |names| + 1)
  {
    hide Looping, StartOf, LoopCause;
    if Resumed(before, names).Some? && !Unknown(names, from) && !Unknown(names, pauseAt) {
      StartedCompletedTo(before, names, from);
      var state, start := Started(before, names, from), StartOf(before, names, from);
      LoopEndsByCause(before, state, 0, names, Given(pauseAt), actions, lives, start);
      if lives > 0 {
        LoopEndsByCause(Some(state), state, 0, names, Given(pauseAt), actions, lives - 1, start);
      }
    }
  }

  /** No two causes hold at once, so a run not cut short ends in one way exactly when that way's cause holds. */
  lemma CauseIsUnique(one: Exit, two: Exit, before: Option<MigrationState>, names: seq<string>, from: Option<string>,
                      pauseAt: Option<string>, actions: nat -> ActionResult)
    requires Distinct(names)
    requires Cause(one, before, names, from, pauseAt, actions) && Cause(two, before, names, from, pauseAt, actions)
    ensures one == two
  {
    if Resumed(before, names).Some? && !Unknown(names, from) && !Unknown(names, pauseAt) {
      LoopCauseIsUnique(one, two, names, Given(pauseAt), StartOf(before, names, from), actions);
    }
  }

  lemma LoopCauseIsUnique(one: Exit, two: Exit, names: seq<string>, pauseAt: Option<string>, start: nat,
                          actions: nat -> ActionResult)
    requires LoopCause(one, names, pauseAt, start, actions) && LoopCause(two, names, pauseAt, start, actions)
    ensures one == two
  {
    if !StopsShort(start, names, pauseAt) {
      var i := StopOf(one, names, pauseAt, start, actions);
      var j := StopOf(two, names, pauseAt, start, actions);
      NoStopBefore(names, pauseAt, actions, start, i, j);
      NoStopBefore(names, pauseAt, actions, start, j, i);
    }
  }

  lemma NoStopBefore(
      names: seq<string>, pauseAt: Option<string>, actions: nat -> ActionResult, start: nat, i: nat, j: nat)
    requires PassesBetween(names, pauseAt, actions, start, j)
    requires i == |names| || (start <= i < |names| && StopsAt(names, pauseAt, actions, i))
    ensures j <= i
  {
  }

  /** Where a run comes to a stop: at the first step it cannot go past, or at the end. */
  lemma StopOf(exit: Exit, names: seq<string>, pauseAt: Option<string>, start: nat, actions: nat -> ActionResult)
    returns (at: nat)
    requires LoopCause(exit, names, pauseAt, start, actions) && !StopsShort(start, names, pauseAt)
    ensures PassesBetween(names, pauseAt, actions, start, at)
    ensures if at == |names| then exit == Finished
            else start <= at < |names| && StopsAt(names, pauseAt, actions, at)
                 && exit == if actions(at).Returns? then Paused else StepFailed(at)
  {
    match exit
    case Finished => at := |names|;
    case StepFailed(i) => at := i;
    case Paused =>
      at :| start <= at < |names| && actions(at).Returns? && pauseAt == Some(names[at])
        && PassesBetween(names, pauseAt, actions, start, at);
  }

  // ---------- When completedAt tells the truth ----------

  lemma {:induction false} LoopStamp(
      file: Option<MigrationState>, state: MigrationState, i: nat, names: seq<string>, pauseAt: Option<string>,
      actions: nat -> ActionResult, lives: nat)
    requires i <= |names| == |state.steps|
    ensures var (exit, after) := Looping(file, state, i, names, pauseAt, actions, lives);
      exit != StepsChanged && exit != UnknownFrom &&
      if exit == Finished then after.Some? && after.value.completedAt
      else after == file || (after.Some? && after.value.completedAt == state.completedAt)
    decreases |names| - i
  {
    if i < |names| {
      if state.steps[i].status.Completed? {
        LoopStamp(file, state, i + 1, names, pauseAt, actions, lives);
      } else {
        var end := ExecutedStep(file, state, i, names, pauseAt, actions, lives);
        LoopStamp(end.file, end.state, i + 1, names, pauseAt, actions, end.lives);
      }
    }
  }

  /**
   * What each exit makes of completedAt: a finished run sets it, a refused one leaves the file alone, and
   * any other that saves at all saves what it resumed with, which `--from` does not clear.
   */
  lemma CompletedAtOf(before: Option<MigrationState>, names: seq<string>, from: Option<string>, pauseAt: Option<string>,
                      actions: nat -> ActionResult, lives: nat)
    ensures var (exit, after) := Outcome(before, names, from, pauseAt, actions, lives);
      match exit
      case Finished => after.Some? && after.value.completedAt
      case StepsChanged => after == before
      case UnknownFrom => after == before
      case _ =>
        || after == before
        || (Resumed(before, names).Some? && after.Some?
            && after.value.completedAt == Resumed(before, names).value.completedAt)
  {
    hide Looping;
    ResumedLength(before, names);
    if Resumed(before, names).Some? && !Unknown(names, from) {
      var state := Started(before, names, from);
      LoopStamp(before, state, 0, names, Given(pauseAt), actions, lives);
      if lives > 0 {
        LoopStamp(Some(state), state, 0, names, Given(pauseAt), actions, lives - 1);
      }
    }
  }

  ghost predicate AllDone(steps: seq<StepState>) {
    forall i | 0 <= i < |steps| :: steps[i].status.Completed?
  }

  /** If the file says complete, every step in it is. */
  ghost predicate Truthful(file: Option<MigrationState>) {
    file.Some? && file.value.completedAt ==> AllDone(file.value.steps)
  }

  /** Whatever the actions do and wherever the run dies, it leaves a truthful file. */
  ghost predicate LeavesTruth(before: Option<MigrationState>, names: seq<string>, from: Option<string>,
                              pauseAt: Option<string>) {
    forall actions, lives :: Truthful(Outcome(before, names, from, pauseAt, actions, lives).1)
  }

  /** The run starts on steps at all: nothing is refused. */
  predicate Accepted(
      before: Option<MigrationState>, names: seq<string>, from: Option<string>, pauseAt: Option<string>) {
    Resumed(before, names).Some? && !Unknown(names, from) && !Unknown(names, pauseAt)
  }

  /** The pause is at a step the run finds completed, and another is not. */
  predicate PausesShort(
      before: Option<MigrationState>, names: seq<string>, from: Option<string>, pauseAt: Option<string>) {
    && Accepted(before, names, from, pauseAt)
    && StopsShort(StartOf(before, names, from), names, pauseAt)
    && StartOf(before, names, from) < |names|
  }

  /** A file that says complete, with no step appended since, is reset from a step. */
  predicate ResetsComplete(before: Option<MigrationState>, names: seq<string>, from: Option<string>) {
    && Resumed(before, names).Some? && Resumed(before, names).value.completedAt
    && Given(from).Some? && !Unknown(names, from)
  }

  /** What a state may become is truthful if the stamp it carries is, and if no pause falls on a completed step. */
  lemma {:induction false} LoopIsTruthful(
      file: Option<MigrationState>, state: MigrationState, i: nat, names: seq<string>, pauseAt: Option<string>,
      actions: nat -> ActionResult, lives: nat)
    requires i <= |names| == |state.steps| && Truthful(file)
    requires state.completedAt ==> AllDone(state.steps)
    requires forall k | 0 <= k < i :: state.steps[k].status.Completed?
    requires forall k | i <= k < |names| && state.steps[k].status.Completed? && pauseAt == Some(names[k]) ::
               AllDone(state.steps)
    ensures Truthful(Looping(file, state, i, names, pauseAt, actions, lives).1)
    decreases |names| - i
  {
    if i < |names| {
      if state.steps[i].status.Completed? {
        if pauseAt != Some(names[i]) {
          LoopIsTruthful(file, state, i + 1, names, pauseAt, actions, lives);
        }
      } else {
        var end := ExecutedStep(file, state, i, names, pauseAt, actions, lives);
        if end.exit.None? {
          LoopIsTruthful(end.file, end.state, i + 1, names, pauseAt, actions, end.lives);
        }
      }
    }
  }

  /** A run that dies before its next save leaves the file alone. */
  lemma {:induction false} LoopOfNoLife(
      file: Option<MigrationState>, state: MigrationState, i: nat, names: seq<string>, pauseAt: Option<string>,
      actions: nat -> ActionResult)
    requires i <= |names| == |state.steps|
    ensures Looping(file, state, i, names, pauseAt, actions, 0) == (Died, file)
    decreases |names| - i
  {
    if i < |names| && state.steps[i].status.Completed? && pauseAt != Some(names[i]) {
      LoopOfNoLife(file, state, i + 1, names, pauseAt, actions);
    }
  }

  /** A pause at a completed step ends the loop there, and stamps the state. */
  lemma {:induction false} LoopBreaks(
      file: Option<MigrationState>, state: MigrationState, i: nat, names: seq<string>, pauseAt: Option<string>,
      actions: nat -> ActionResult, lives: nat)
    requires pauseAt.Some? && i <= IndexOf(names, pauseAt.value) < |names| == |state.steps| && lives > 0
    requires forall k | i <= k <= IndexOf(names, pauseAt.value) :: state.steps[k].status.Completed?
    ensures Looping(file, state, i, names, pauseAt, actions, lives) ==
              (Finished, Some(state.(completedAt := true)))
    decreases |names| - i
  {
    if i < IndexOf(names, pauseAt.value) {
      LoopBreaks(file, state, i + 1, names, pauseAt, actions, lives);
    }
  }

  lemma TruthKept(before: Option<MigrationState>, names: seq<string>, from: Option<string>, pauseAt: Option<string>,
                  actions: nat -> ActionResult, lives: nat)
    requires Sound(before) && Truthful(before)
    requires !PausesShort(before, names, from, pauseAt) && !ResetsComplete(before, names, from)
    ensures Truthful(Outcome(before, names, from, pauseAt, actions, lives).1)
  {
    if Resumed(before, names).Some? && !Unknown(names, from) {
      StartedCompletedTo(before, names, from);
      var state, start := Started(before, names, from), StartOf(before, names, from);
      hide StartOf, Outcome, Looping;
      if !Unknown(names, pauseAt) {
        forall k | 0 <= k < |names| && state.steps[k].status.Completed? && Given(pauseAt) == Some(names[k])
          ensures AllDone(state.steps)
        {
          assert IndexOf(names, names[k]) <= k < start && StopsShort(start, names, pauseAt);
        }
        LoopIsTruthful(before, state, 0, names, Given(pauseAt), actions, lives);
        if lives > 0 {
          LoopIsTruthful(Some(state), state, 0, names, Given(pauseAt), actions, lives - 1);
        }
      }
      OutcomeOfAccepted(before, names, from, pauseAt, actions, lives);
    }
  }

  lemma OutcomeOfAccepted(
      before: Option<MigrationState>, names: seq<string>, from: Option<string>, pauseAt: Option<string>,
      actions: nat -> ActionResult, lives: nat)
    requires Resumed(before, names).Some? && !Unknown(names, from) && |Started(before, names, from).steps| == |names|
    ensures var state := Started(before, names, from);
      Outcome(before, names, from, pauseAt, actions, lives) ==
        if Given(from).None? then Continued(before, state, names, pauseAt, actions, lives)
        else if lives == 0 then (Died, before)
        else Continued(Some(state), state, names, pauseAt, actions, lives - 1)
  {
  }

  /** A pause short of the end, in a run that lives long enough, stamps a file with steps missing. */
  lemma PauseLies(before: Option<MigrationState>, names: seq<string>, from: Option<string>, pauseAt: Option<string>,
                  actions: nat -> ActionResult, lives: nat)
    requires Sound(before) && PausesShort(before, names, from, pauseAt) && lives > 1
    ensures Outcome(before, names, from, pauseAt, actions, lives).0 == Finished
    ensures !Truthful(Outcome(before, names, from, pauseAt, actions, lives).1)
  {
    StartedCompletedTo(before, names, from);
    var state, start := Started(before, names, from), StartOf(before, names, from);
    hide StartOf, Outcome, Looping;
    LoopBreaks(before, state, 0, names, Given(pauseAt), actions, lives);
    LoopBreaks(Some(state), state, 0, names, Given(pauseAt), actions, lives - 1);
    OutcomeOfAccepted(before, names, from, pauseAt, actions, lives);
    assert !state.steps[start].status.Completed?;
  }

  /** A complete file reset from a step still says complete, and a run that dies then leaves it so. */
  lemma ResetLies(before: Option<MigrationState>, names: seq<string>, from: Option<string>, pauseAt: Option<string>,
                  actions: nat -> ActionResult)
    requires Sound(before) && ResetsComplete(before, names, from)
    ensures Outcome(before, names, from, pauseAt, actions, 1).1 == Some(Started(before, names, from))
    ensures !Truthful(Outcome(before, names, from, pauseAt, actions, 1).1)
  {
    StartedCompletedTo(before, names, from);
    var state, at := Started(before, names, from), IndexOf(names, Given(from).value);
    LoopOfNoLife(Some(state), state, 0, names, Given(pauseAt), actions);
    hide Looping;
    OutcomeOfAccepted(before, names, from, pauseAt, actions, 1);
    assert state.completedAt && !state.steps[at].status.Completed?;
  }

  /**
   * From a truthful file a run leaves a truthful one, whatever its actions do and wherever it dies, if and
   * only if it neither pauses at a completed step with another one missing, nor resets a file that says
   * complete.
   */
  lemma CompleteMeansComplete(before: Option<MigrationState>, names: seq<string>, from: Option<string>,
                              pauseAt: Option<string>)
    requires Sound(before) && Truthful(before)
    ensures LeavesTruth(before, names, from, pauseAt) <==>
              !PausesShort(before, names, from, pauseAt) && !ResetsComplete(before, names, from)
  {
    hide Outcome;
    var actions: nat -> ActionResult := _ => ReturnsNothing;
    if PausesShort(before, names, from, pauseAt) {
      PauseLies(before, names, from, pauseAt, actions, 2);
    } else if ResetsComplete(before, names, from) {
      ResetLies(before, names, from, pauseAt, actions);
    } else {
      forall actions, lives ensures Truthful(Outcome(before, names, from, pauseAt, actions, lives).1) {
        TruthKept(before, names, from, pauseAt, actions, lives);
      }
    }
  }

  /** The first failing input: one step done, one appended or pending, and a pause at the first. */
  lemma PauseAtDoneLies(a: string, b: string, output: Output, actions: nat -> ActionResult)
    requires a != b && a != ""
    ensures
      var done := PendingStep(a).(status := Completed, output := Some(output));
      var before := Some(MigrationState(false, [done, PendingStep(b)]));
      Outcome(before, [a, b], None, Some(a), actions, 2) ==
        (Finished, Some(MigrationState(true, [done, PendingStep(b)])))
  {
    var done := PendingStep(a).(status := Completed, output := Some(output));
    var before := Some(MigrationState(false, [done, PendingStep(b)]));
    assert Names(before.value.steps) == [a, b] == [a, b][..2] && [a, b][2..] == [];
    assert CreateSteps([]) == [] && before.value.steps + [] == before.value.steps;
    assert Resumed(before, [a, b]) == before;
  }

  /** The second: a file that says complete, a run from its first step, and an action that fails. */
  lemma FromDoneLies(a: string, output: Output, pauseAt: Option<string>)
    requires a != "" && Given(pauseAt).None?
    ensures
      var done := PendingStep(a).(status := Completed, output := Some(output));
      var before := Some(MigrationState(true, [done]));
      var failed := FailedStep(PendingStep(a), ReturnsNothing);
      Outcome(before, [a], Some(a), pauseAt, _ => ReturnsNothing, 3) ==
        (StepFailed(0), Some(MigrationState(true, [failed])))
  {
    var done := PendingStep(a).(status := Completed, output := Some(output));
    var before := Some(MigrationState(true, [done]));
    assert Names(before.value.steps) == [a] == [a][..1] && [a][1..] == [];
    assert CreateSteps([]) == [] && before.value.steps + [] == before.value.steps;
    assert Resumed(before, [a]) == before;
    assert ResetFrom([done], 0) == [PendingStep(a)];
    var failed := FailedStep(PendingStep(a), ReturnsNothing);
    assert [PendingStep(a)][0 := failed] == [failed];
  }

  // ---------- Resuming, by index ----------

  /** Some step of the file is not at its place in the definition. */
  predicate Misplaced(before: Option<MigrationState>, names: seq<string>) {
    before.Some? && exists i | 0 <= i < |before.value.steps| :: MisplacedAt(before.value.steps, names, i)
  }

  predicate MisplacedAt(steps: seq<StepState>, names: seq<string>, i: nat)
    requires i < |steps|
  {
    i >= |names| || steps[i].name != names[i]
  }

  /** A step that has not been run: nothing but its name. */
  ghost predicate NotRun(step: StepState, name: string) {
    step == StepState(name, Pending, None, None, false, false)
  }

  /**
   * The file's steps as they are, then one pending step for each further name; with no file, one for each
   * name. Complete is what the file said, unless a step was appended.
   */
  ghost predicate ResumesAs(before: Option<MigrationState>, names: seq<string>, state: MigrationState) {
    var had := if before.Some? then |before.value.steps| else 0;
    && |state.steps| == |names|
    && (forall i | 0 <= i < |names| ::
          if i < had then state.steps[i] == before.value.steps[i] else NotRun(state.steps[i], names[i]))
    && state.completedAt == (before.Some? && before.value.completedAt && had == |names|)
  }

  /** The steps from `at` on are as if they had never run, and the others as they were. */
  ghost predicate ResetAs(was: MigrationState, at: nat, now: MigrationState) {
    && now.completedAt == was.completedAt && |now.steps| == |was.steps|
    && forall i | 0 <= i < |was.steps| ::
         if i < at then now.steps[i] == was.steps[i] else NotRun(now.steps[i], was.steps[i].name)
  }

  lemma ResumedIff(before: Option<MigrationState>, names: seq<string>)
    ensures Resumed(before, names).None? <==> Misplaced(before, names)
    ensures Resumed(before, names).Some? ==> ResumesAs(before, names, Resumed(before, names).value)
  {
    if before.Some? {
      var steps := before.value.steps;
      NamesPrefix(steps, names);
      var had := |before.value.steps|;
      if had <= |names| {
        forall i | had <= i < |names| ensures CreateSteps(names[had..])[i - had] == PendingStep(names[i]) {
          assert names[had..][i - had] == names[i];
        }
      }
    }
  }

  lemma NamesPrefix(steps: seq<StepState>, names: seq<string>)
    ensures (|steps| <= |names| && Names(steps) == names[..|steps|]) <==>
              forall i | 0 <= i < |steps| :: !MisplacedAt(steps, names, i)
  {
    if |steps| <= |names| {
      assert forall i | 0 <= i < |steps| :: Names(steps)[i] == steps[i].name && names[..|steps|][i] == names[i];
      if forall i | 0 <= i < |steps| :: !MisplacedAt(steps, names, i) {
        forall i | 0 <= i < |steps| ensures Names(steps)[i] == names[..|steps|][i] {
          assert !MisplacedAt(steps, names, i);
        }
      }
    } else {
      assert MisplacedAt(steps, names, |names|);
    }
  }

  lemma ResumesAsOne(before: Option<MigrationState>, names: seq<string>, one: MigrationState, two: MigrationState)
    requires ResumesAs(before, names, one) && ResumesAs(before, names, two)
    ensures one == two
  {
    assert one.steps == two.steps;
  }

  lemma {:induction false} LoopExits(
      file: Option<MigrationState>, state: MigrationState, i: nat, names: seq<string>, pauseAt: Option<string>,
      actions: nat -> ActionResult, lives: nat)
    requires i <= |names| == |state.steps|
    ensures Looping(file, state, i, names, pauseAt, actions, lives).0 !in {StepsChanged, UnknownFrom, UnknownPause}
    decreases |names| - i
  {
    if i < |names| {
      if state.steps[i].status.Completed? {
        LoopExits(file, state, i + 1, names, pauseAt, actions, lives);
      } else {
        var end := ExecutedStep(file, state, i, names, pauseAt, actions, lives);
        LoopExits(end.file, end.state, i + 1, names, pauseAt, actions, end.lives);
      }
    }
  }

  /** Whether an option was given: the empty string was not. */
  predicate IsGiven(option: Option<string>) {
    option.Some? && option.value != ""
  }

  /**
   * A run is refused as changed if and only if some step of the file is not at its place in the definition;
   * else for its `--from` exactly if that is given and names no step; and then the file is left as it was.
   */
  lemma RefusedIff(before: Option<MigrationState>, names: seq<string>, from: Option<string>, pauseAt: Option<string>,
                   actions: nat -> ActionResult, lives: nat)
    ensures var (exit, after) := Outcome(before, names, from, pauseAt, actions, lives);
      && (exit == StepsChanged <==> Misplaced(before, names))
      && (exit == UnknownFrom <==> !Misplaced(before, names) && IsGiven(from) && from.value !in names)
      && (exit in {StepsChanged, UnknownFrom} ==> after == before)
  {
    ResumedIff(before, names);
    if Resumed(before, names).Some? && !Unknown(names, from) {
      ResumedLength(before, names);
      var state := Started(before, names, from);
      LoopExits(before, state, 0, names, Given(pauseAt), actions, lives);
      if lives > 0 {
        LoopExits(Some(state), state, 0, names, Given(pauseAt), actions, lives - 1);
      }
    }
  }

  /**
   * A run that is not refused goes into its loop with the file's steps and one pending step for each further
   * name, `completedAt` being cleared exactly when one was appended.
   */
  lemma LoopsFromResumed(before: Option<MigrationState>, names: seq<string>, from: Option<string>,
                         pauseAt: Option<string>, actions: nat -> ActionResult, lives: nat, state: MigrationState)
    requires !Misplaced(before, names) && ResumesAs(before, names, state) && !IsGiven(from)
    ensures Outcome(before, names, from, pauseAt, actions, lives) ==
              if IsGiven(pauseAt) && pauseAt.value !in names then (UnknownPause, before)
              else Looping(before, state, 0, names, if IsGiven(pauseAt) then pauseAt else None, actions, lives)
  {
    ResumedIff(before, names);
    ResumesAsOne(before, names, state, Resumed(before, names).value);
  }

  /** With `--from` naming step `at`, those from there on are reset and the reset is saved before anything else. */
  lemma LoopsFromReset(before: Option<MigrationState>, names: seq<string>, from: Option<string>,
                       pauseAt: Option<string>, actions: nat -> ActionResult, lives: nat,
                       state: MigrationState, at: nat, reset: MigrationState)
    requires !Misplaced(before, names) && ResumesAs(before, names, state) && ResetAs(state, at, reset)
    requires IsGiven(from) && at < |names| && names[at] == from.value
    requires forall j | 0 <= j < at :: names[j] != from.value
    ensures Outcome(before, names, from, pauseAt, actions, lives) ==
              if lives == 0 then (Died, before)
              else if IsGiven(pauseAt) && pauseAt.value !in names then (UnknownPause, Some(reset))
              else Looping(Some(reset), reset, 0, names, if IsGiven(pauseAt) then pauseAt else None, actions, lives - 1)
  {
    ResumedIff(before, names);
    ResumesAsOne(before, names, state, Resumed(before, names).value);
    assert IndexOf(names, from.value) == at;
    assert ResetFrom(state.steps, at) == reset.steps;
  }

  /** A complete migration with a step appended goes on with that step, and is complete again after it. */
  lemma AppendedStepRuns(a: string, b: string, first: Output, second: Output)
    requires a != b
    ensures
      var done := StepState(a, Completed, Some(first), None, true, true);
      Outcome(Some(MigrationState(true, [done])), [a, b], None, None, _ => Returns(second), 3) ==
        (Finished, Some(MigrationState(true, [done, StepState(b, Completed, Some(second), None, true, true)])))
  {
    var done := StepState(a, Completed, Some(first), None, true, true);
    var before, names := Some(MigrationState(true, [done])), [a, b];
    var actions: nat -> ActionResult := _ => Returns(second);
    var state := MigrationState(false, [done, StepState(b, Pending, None, None, false, false)]);
    assert ResumesAs(before, names, state) && !Misplaced(before, names);
    LoopsFromResumed(before, names, None, None, actions, 3, state);
    var ran := StepState(b, Completed, Some(second), None, true, true);
    assert state.steps[1 := ran] == [done, ran];
    assert Looping(before, state, 0, names, None, actions, 3) == Looping(before, state, 1, names, None, actions, 3);
    var after := state.(steps := [done, ran]);
    assert Looping(before, state, 1, names, None, actions, 3) ==
             Looping(Some(after), after, 2, names, None, actions, 1);
  }

  // ---------- What a run writes of each step ----------

  /** What its action makes of a step, field by field. */
  ghost predicate WroteStep(was: StepState, result: ActionResult, now: StepState) {
    match result
    case Returns(output) => now == StepState(was.name, Completed, Some(output), None, true, true)
    case Throws(message) => now == StepState(was.name, Failed, was.output, Some(message), true, was.completedAt)
    case ReturnsNothing =>
      now == StepState(was.name, Failed, None, Some("Cannot convert undefined or null to object"), true, true)
  }

  /** Every step a loop leaves on disk is as it found it or exactly what its action made of it; completed ones stay. */
  lemma {:induction false} LoopWrites(
      file: Option<MigrationState>, state: MigrationState, i: nat, names: seq<string>, pauseAt: Option<string>,
      actions: nat -> ActionResult, lives: nat)
    requires i <= |names| == |state.steps|
    ensures var after := Looping(file, state, i, names, pauseAt, actions, lives).1;
      || after == file
      || (&& after.Some? && |after.value.steps| == |names|
          && forall k | 0 <= k < |names| ::
               || after.value.steps[k] == state.steps[k]
               || (i <= k && !state.steps[k].status.Completed?
                   && WroteStep(state.steps[k], actions(k), after.value.steps[k])))
    decreases |names| - i
  {
    if i < |names| {
      if state.steps[i].status.Completed? {
        LoopWrites(file, state, i + 1, names, pauseAt, actions, lives);
      } else {
        var end := ExecutedStep(file, state, i, names, pauseAt, actions, lives);
        LoopWrites(end.file, end.state, i + 1, names, pauseAt, actions, end.lives);
      }
    }
  }
}
