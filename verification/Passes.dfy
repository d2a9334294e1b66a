/**
 * How nudges become passes over the chains. `trigger` and `run` take steps between awaits: a run is
 * suspended in its rebuild or in the drain of one chain, and nudges arrive meanwhile. The log says in what
 * order nudges came and passes began, visited their chains and ended.
 */
module Passes {

  datatype Mark = Triggered | Began | Visited(chain: nat) | Ended

  /** An open pass: where in the log it began, and how many chains it has started to drain. */
  datatype Open = Open(began: nat, visited: nat)

  datatype State = State(busy: bool, again: bool, running: seq<Open>, log: seq<Mark>)

  function Initial(): State {
    State(false, false, [], [])
  }

  /** A call of `run`, up to the await in its first rebuild. It does not look at `busy`. */
  function Running(s: State): State {
    State(true, false, s.running + [Open(|s.log|, 0)], s.log + [Began])
  }

  /** A call of `trigger`. */
  function Triggering(s: State): State {
    var t := s.(log := s.log + [Triggered]);
    if t.busy then t.(again := true) else Running(t)
  }

  /** The run at `i` resumes: it starts on its next chain, or is through with its pass. */
  function Resuming(s: State, i: nat, chains: nat): State
    requires i < |s.running|
  {
    var open := s.running[i];
    if open.visited < chains then
      s.(running := s.running[i := open.(visited := open.visited + 1)], log := s.log + [Visited(open.visited)])
    else if s.again then
      s.(again := false, running := s.running[i := Open(|s.log| + 1, 0)], log := s.log + [Ended, Began])
    else s.(busy := false, running := s.running[..i] + s.running[i + 1..], log := s.log + [Ended])
  }

  /** `start` calls `run` past the guard; a nudge goes through it; a suspended run resumes. */
  datatype Step = Start | Trigger | Resume(at: nat)

  /** `start` is called once, and runs without an await between subscribing to nudges and calling `run`. */
  predicate Enabled(s: State, step: Step) {
    match step
    case Start => s.log == []
    case Trigger => true
    case Resume(i) => i < |s.running|
  }

  function After(s: State, step: Step, chains: nat): State
    requires Enabled(s, step)
  {
    match step
    case Start => Running(s)
    case Trigger => Triggering(s)
    case Resume(i) => Resuming(s, i, chains)
  }

  // ---------- Passes in a log ----------

  /** Passes begun and not ended. */
  function OpenIn(log: seq<Mark>): int {
    if log == [] then 0
    else
      var last := |log| - 1;
      OpenIn(log[..last]) + if log[last] == Began then 1 else if log[last] == Ended then -1 else 0
  }

  /** The chains visited, in order. */
  function VisitsIn(log: seq<Mark>): seq<nat> {
    if log == [] then []
    else
      var last := |log| - 1;
      VisitsIn(log[..last]) + if log[last].Visited? then [log[last].chain] else []
  }

  function UpTo(n: nat): seq<nat> {
    seq(n, i => i)
  }

  /**
   * From `b` on a pass is under way, none beginning or ending in between, and has visited the first chains
   * in order.
   */
  ghost predicate UnderWay(log: seq<Mark>, b: nat, end: nat, visited: nat) {
    && b < end <= |log| && log[b] == Began
    && (forall k | b < k < end :: log[k].Triggered? || log[k].Visited?)
    && VisitsIn(log[b + 1..end]) == UpTo(visited)
  }

  /** A whole pass over all chains, from its beginning to its end. */
  ghost predicate WholePass(log: seq<Mark>, b: nat, e: nat, chains: nat) {
    e < |log| && UnderWay(log, b, e, chains) && log[e] == Ended
  }

  // ---------- Invariant ----------

  /** At most one pass is open, now and at every earlier moment. */
  ghost predicate OneAtATime(s: State) {
    && |s.running| == (if s.busy then 1 else 0)
    && OpenIn(s.log) == |s.running|
    && forall n | 0 <= n <= |s.log| :: 0 <= OpenIn(s.log[..n]) <= 1
  }

  /** The open pass is as far as it says, and every pass that ended was whole. */
  ghost predicate PassesWhole(s: State, chains: nat) {
    && (forall i | 0 <= i < |s.running| ::
          s.running[i].visited <= chains && UnderWay(s.log, s.running[i].began, |s.log|, s.running[i].visited))
    && (forall e | 0 <= e < |s.log| && s.log[e] == Ended :: exists b: nat :: WholePass(s.log, b, e, chains))
    && (!s.busy ==>
          forall b | 0 <= b < |s.log| && s.log[b] == Began :: exists e :: b < e < |s.log| && s.log[e] == Ended)
  }

  /** A pass begins after a nudge. */
  ghost predicate Answered(log: seq<Mark>, t: nat) {
    exists b :: t < b < |log| && log[b] == Began
  }

  /** Every nudge is answered, or asks a run that is busy to go round again. */
  ghost predicate NoneLost(s: State) {
    && (s.again ==> s.busy)
    && forall t | 0 <= t < |s.log| && s.log[t] == Triggered :: s.again || Answered(s.log, t)
  }

  ghost predicate Inv(s: State, chains: nat) {
    OneAtATime(s) && PassesWhole(s, chains) && NoneLost(s)
  }

  lemma OneMoreMark(log: seq<Mark>, m: Mark)
    ensures (log + [m])[..|log|] == log
    ensures OpenIn(log + [m]) == OpenIn(log) + if m == Began then 1 else if m == Ended then -1 else 0
    ensures VisitsIn(log + [m]) == VisitsIn(log) + if m.Visited? then [m.chain] else []
  {
    assert (log + [m])[..|log|] == log;
  }

  lemma OpenByOne(log: seq<Mark>, m: Mark)
    requires forall n | 0 <= n <= |log| :: 0 <= OpenIn(log[..n]) <= 1
    requires 0 <= OpenIn(log + [m]) <= 1
    ensures forall n | 0 <= n <= |log + [m]| :: 0 <= OpenIn((log + [m])[..n]) <= 1
  {
    var more := log + [m];
    assert more[..|more|] == more;
    assert forall n | 0 <= n <= |log| :: more[..n] == log[..n];
  }

  /** What was said of part of a log holds in a longer one. */
  lemma UnderWayOnward(log: seq<Mark>, m: Mark, b: nat, end: nat, visited: nat)
    requires UnderWay(log, b, end, visited)
    ensures UnderWay(log + [m], b, end, visited)
    ensures end == |log| && m == Triggered ==> UnderWay(log + [m], b, end + 1, visited)
    ensures end == |log| && m == Visited(visited) ==> UnderWay(log + [m], b, end + 1, visited + 1)
  {
    var more := log + [m];
    assert more[b + 1..end] == log[b + 1..end];
    if end == |log| {
      assert more[b + 1..end + 1] == log[b + 1..end] + [m];
      OneMoreMark(log[b + 1..end], m);
      assert UpTo(visited + 1) == UpTo(visited) + [visited];
    }
  }

  lemma EndedStaysWhole(log: seq<Mark>, m: Mark, chains: nat)
    requires forall e | 0 <= e < |log| && log[e] == Ended :: exists b: nat :: WholePass(log, b, e, chains)
    ensures forall e | 0 <= e < |log| && (log + [m])[e] == Ended :: exists b: nat :: WholePass(log + [m], b, e, chains)
  {
    forall e | 0 <= e < |log| && (log + [m])[e] == Ended ensures exists b: nat :: WholePass(log + [m], b, e, chains) {
      var b: nat :| WholePass(log, b, e, chains);
      UnderWayOnward(log, m, b, e, chains);
      assert WholePass(log + [m], b, e, chains);
    }
  }

  /** A mark that neither begins nor ends a pass: a nudge, or the next visit of the open pass. */
  function Marked(s: State, m: Mark): State {
    s.(log := s.log + [m],
       again := s.again || (m.Triggered? && s.busy),
       running := if m.Visited? && s.running != [] then [s.running[0].(visited := s.running[0].visited + 1)]
                  else s.running)
  }

  lemma MarkedOne(s: State, m: Mark)
    requires OneAtATime(s) && (m.Triggered? || (m.Visited? && s.running != []))
    ensures OneAtATime(Marked(s, m))
  {
    OneMoreMark(s.log, m);
    OpenByOne(s.log, m);
  }

  lemma MarkedWhole(s: State, m: Mark, chains: nat)
    requires OneAtATime(s) && PassesWhole(s, chains)
    requires m.Triggered? || (s.running != [] && m == Visited(s.running[0].visited) && s.running[0].visited < chains)
    ensures PassesWhole(Marked(s, m), chains)
  {
    hide OpenIn, VisitsIn, UnderWay, WholePass;
    var t := Marked(s, m);
    EndedStaysWhole(s.log, m, chains);
    if s.running != [] {
      UnderWayOnward(s.log, m, s.running[0].began, |s.log|, s.running[0].visited);
    }
    if !s.busy {
      forall b | 0 <= b < |t.log| && t.log[b] == Began ensures exists e :: b < e < |t.log| && t.log[e] == Ended {
        assert s.log[b] == Began;
        var e :| b < e < |s.log| && s.log[e] == Ended;
        assert t.log[e] == Ended;
      }
    }
  }

  lemma AnsweredOnward(log: seq<Mark>, more: seq<Mark>, t: nat)
    requires Answered(log, t) && log <= more
    ensures Answered(more, t)
  {
    var b :| t < b < |log| && log[b] == Began;
    assert more[b] == Began;
  }

  lemma MarkedNoneLost(s: State, m: Mark)
    requires NoneLost(s) && (m.Triggered? ==> s.busy) && (m.Visited? || m.Triggered?)
    ensures NoneLost(Marked(s, m))
  {
    var t := Marked(s, m);
    forall k | 0 <= k < |t.log| && t.log[k] == Triggered ensures t.again || Answered(t.log, k) {
      if !t.again {
        assert s.log[k] == Triggered;
        AnsweredOnward(s.log, t.log, k);
      }
    }
  }

  /** A pass begins where none is open. */
  lemma RunningKeeps(s: State, chains: nat)
    requires OneAtATime(s) && PassesWhole(s, chains) && !s.busy
    ensures Inv(Running(s), chains)
  {
    var t := Running(s);
    OneMoreMark(s.log, Began);
    OpenByOne(s.log, Began);
    EndedStaysWhole(s.log, Began, chains);
    assert t.log[|s.log| + 1..] == [] && UnderWay(t.log, |s.log|, |t.log|, 0);
    forall k | 0 <= k < |t.log| && t.log[k] == Triggered ensures Answered(t.log, k) {
      assert t.log[|s.log|] == Began;
    }
  }

  /** The open pass, with all chains visited, ends. */
  function Ending(s: State): State {
    s.(busy := false, again := false, running := [], log := s.log + [Ended])
  }

  lemma EndingKeeps(s: State, chains: nat)
    requires OneAtATime(s) && PassesWhole(s, chains) && s.busy && s.running[0].visited == chains
    ensures OneAtATime(Ending(s)) && PassesWhole(Ending(s), chains)
  {
    hide UnderWay;
    var t := Ending(s);
    OneMoreMark(s.log, Ended);
    OpenByOne(s.log, Ended);
    EndedStaysWhole(s.log, Ended, chains);
    UnderWayOnward(s.log, Ended, s.running[0].began, |s.log|, chains);
    assert WholePass(t.log, s.running[0].began, |s.log|, chains);
    assert t.log[|s.log|] == Ended;
  }

  lemma StepKeepsInv(s: State, step: Step, chains: nat)
    requires Inv(s, chains) && Enabled(s, step)
    ensures Inv(After(s, step, chains), chains)
  {
    match step
    case Start => RunningKeeps(s, chains);
    case Trigger => TriggeringKeeps(s, chains);
    case Resume(_) => ResumingKeeps(s, chains);
  }

  lemma TriggeringKeeps(s: State, chains: nat)
    requires Inv(s, chains)
    ensures Inv(Triggering(s), chains)
  {
    hide OneAtATime, PassesWhole, NoneLost;
    MarkedOne(s, Triggered);
    MarkedWhole(s, Triggered, chains);
    if s.busy {
      MarkedNoneLost(s, Triggered);
    } else {
      RunningKeeps(Marked(s, Triggered), chains);
    }
  }

  /** A resumed run visits its next chain, or ends its pass and, if asked to, begins another. */
  lemma ResumingIs(s: State, chains: nat)
    requires |s.running| == 1 && s.busy && s.running[0].visited <= chains
    ensures Resuming(s, 0, chains) ==
      if s.running[0].visited < chains then Marked(s, Visited(s.running[0].visited))
      else if s.again then Running(Ending(s)) else Ending(s)
  {
    var open := s.running[0];
    assert s.running == [open] && s.running[..0] + s.running[1..] == [];
    assert s.log + [Ended, Began] == s.log + [Ended] + [Began];
    assert s.running[0 := Open(|s.log| + 1, 0)] == [Open(|s.log| + 1, 0)];
  }

  lemma ResumingKeeps(s: State, chains: nat)
    requires Inv(s, chains) && s.running != []
    ensures Inv(Resuming(s, 0, chains), chains)
  {
    var open := s.running[0];
    ResumingIs(s, chains);
    hide OneAtATime, PassesWhole, NoneLost, Marked, Running, Resuming;
    if open.visited < chains {
      MarkedOne(s, Visited(open.visited));
      MarkedWhole(s, Visited(open.visited), chains);
      MarkedNoneLost(s, Visited(open.visited));
    } else {
      EndingKeeps(s, chains);
      if s.again {
        RunningKeeps(Ending(s), chains);
      } else {
        EndingLosesNone(s);
      }
    }
  }

  lemma EndingLosesNone(s: State)
    requires NoneLost(s) && !s.again
    ensures NoneLost(Ending(s))
  {
    forall t | 0 <= t < |Ending(s).log| && Ending(s).log[t] == Triggered ensures Answered(Ending(s).log, t) {
      assert s.log[t] == Triggered;
      AnsweredOnward(s.log, Ending(s).log, t);
    }
  }

  /** A call of `run` where none is busy opens one pass. */
  lemma CallOpens(s: State, step: Step, chains: nat)
    requires Inv(s, chains) && !s.busy && Enabled(s, step) && !step.Resume?
    ensures var t := After(s, step, chains);
      && Inv(t, chains) && t.busy && !t.again && |t.running| == 1 && t.running[0].visited == 0
  {
    StepKeepsInv(s, step, chains);
  }

  // ---------- Every interleaving ----------

  ghost predicate Run(states: seq<State>, steps: seq<Step>, chains: nat) {
    && |states| == |steps| + 1 && states[0] == Initial()
    && forall i | 0 <= i < |steps| ::
         Enabled(states[i], steps[i]) && states[i + 1] == After(states[i], steps[i], chains)
  }

  lemma InitialInv(chains: nat)
    ensures Inv(Initial(), chains)
  {
  }

  lemma {:induction false} RunKeepsInv(states: seq<State>, steps: seq<Step>, chains: nat, i: nat)
    requires Run(states, steps, chains) && i < |states|
    ensures Inv(states[i], chains)
  {
    if i == 0 {
      InitialInv(chains);
    } else {
      RunKeepsInv(states, steps, chains, i - 1);
      StepKeepsInv(states[i - 1], steps[i - 1], chains);
    }
  }

  /** Two passes never overlap: at no moment of any run is more than one begun and not ended. */
  lemma PassesNeverOverlap(states: seq<State>, steps: seq<Step>, chains: nat, i: nat, n: nat)
    requires Run(states, steps, chains) && i < |states| && n <= |states[i].log|
    ensures 0 <= OpenIn(states[i].log[..n]) <= 1
  {
    RunKeepsInv(states, steps, chains, i);
  }

  /** Each nudge has a pass that begins after it, or is pending behind a run that will go round again. */
  lemma NoNudgeLost(states: seq<State>, steps: seq<Step>, chains: nat, i: nat, t: nat)
    requires Run(states, steps, chains) && i < |states| && t < |states[i].log| && states[i].log[t] == Triggered
    ensures Answered(states[i].log, t) || (states[i].again && |states[i].running| == 1)
  {
    RunKeepsInv(states, steps, chains, i);
  }

  /** At rest a whole pass, over every chain in order, lies after each nudge. */
  lemma WholePassAfterNudge(states: seq<State>, steps: seq<Step>, chains: nat, i: nat, t: nat)
    requires Run(states, steps, chains) && i < |states| && states[i].running == []
    requires t < |states[i].log| && states[i].log[t] == Triggered
    ensures exists b: nat, e: nat :: t < b && WholePass(states[i].log, b, e, chains)
  {
    RunKeepsInv(states, steps, chains, i);
    var s := states[i];
    var began :| t < began < |s.log| && s.log[began] == Began;
    var e :| began < e < |s.log| && s.log[e] == Ended;
    var b: nat :| WholePass(s.log, b, e, chains);
    assert began <= b;
  }

  /** A call of `run` past the guard makes two passes overlap exactly when one is under way. */
  lemma RunPastGuardOverlapsIff(s: State, chains: nat)
    requires Inv(s, chains)
    ensures |Running(s).running| > 1 <==> s.busy
    ensures OpenIn(Running(s).log) > 1 <==> s.busy
  {
    OneMoreMark(s.log, Began);
  }
}
