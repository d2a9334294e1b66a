/**
 * The bounded queue between fetchers and the writer. Its methods run to completion between awaits; a
 * continuation that has been woken resumes later, in whatever order, and others may get in between.
 */
module BoundedQueue {
  import opened Wrappers

  /** A call of `push` with its item, and a call of `take`; suspended ones resume as they were. */
  datatype Pusher<T> = Pusher(id: nat, item: T)
  datatype Taker = Taker(id: nat)

  /** Where a call of `take` stands: suspended, or back with an item or null. */
  datatype Taken<T> = Waiting | Back(got: Option<T>)

  /**
   * The queue, the continuations waiting on it and those woken but not yet resumed; then what has
   * happened so far: every call, the pushes that appended, those dropped, and what takes returned.
   */
  datatype State<T(==)> = State(
    maxSize: int,
    buffer: seq<T>,
    pushWaiters: seq<Pusher<T>>,
    takeWaiters: seq<Taker>,
    closed: bool,
    wokenPushers: seq<Pusher<T>>,
    wokenTakers: seq<Taker>,
    pushes: seq<Pusher<T>>,
    takes: seq<Taker>,
    appended: seq<Pusher<T>>,
    dropped: seq<Pusher<T>>,
    returned: seq<Taker>,
    receipts: seq<Option<T>>)

  function Fresh<T(==)>(maxSize: int): State<T> {
    State(maxSize, [], [], [], false, [], [], [], [], [], [], [], [])
  }

  // ---------- Run-to-completion steps ----------

  /** `push` from its loop guard on, whether just called or just resumed. */
  function Pushing<T(==)>(s: State<T>, p: Pusher<T>): State<T> {
    if |s.buffer| >= s.maxSize && !s.closed then s.(pushWaiters := s.pushWaiters + [p])
    else if s.closed then s.(dropped := s.dropped + [p])
    else
      var t := s.(buffer := s.buffer + [p.item], appended := s.appended + [p]);
      if t.takeWaiters == [] then t
      else t.(takeWaiters := t.takeWaiters[1..], wokenTakers := t.wokenTakers + [t.takeWaiters[0]])
  }

  /** `take` from its loop guard on. */
  function Taking<T(==)>(s: State<T>, k: Taker): State<T> {
    if s.buffer == [] && !s.closed then s.(takeWaiters := s.takeWaiters + [k])
    else if s.buffer == [] then s.(returned := s.returned + [k], receipts := s.receipts + [None])
    else
      var t := s.(buffer := s.buffer[1..], returned := s.returned + [k], receipts := s.receipts + [Some(s.buffer[0])]);
      if t.pushWaiters == [] then t
      else t.(pushWaiters := t.pushWaiters[1..], wokenPushers := t.wokenPushers + [t.pushWaiters[0]])
  }

  function Closing<T(==)>(s: State<T>): State<T> {
    s.(closed := true,
       pushWaiters := [], wokenPushers := s.wokenPushers + s.pushWaiters,
       takeWaiters := [], wokenTakers := s.wokenTakers + s.takeWaiters)
  }

  datatype Step<T> =
    | Push(p: Pusher<T>)
    | ResumePush(at: nat)
    | Take(k: Taker)
    | ResumeTake(at: nat)
    | Close

  predicate Enabled<T(==)>(s: State<T>, step: Step<T>) {
    match step
    case ResumePush(i) => i < |s.wokenPushers|
    case ResumeTake(i) => i < |s.wokenTakers|
    case _ => true
  }

  function Without<X>(xs: seq<X>, i: nat): seq<X>
    requires i < |xs|
  {
    xs[..i] + xs[i + 1..]
  }

  function After<T(==)>(s: State<T>, step: Step<T>): State<T>
    requires Enabled(s, step)
  {
    match step
    case Push(p) => Pushing(s.(pushes := s.pushes + [p]), p)
    case ResumePush(i) => Pushing(s.(wokenPushers := Without(s.wokenPushers, i)), s.wokenPushers[i])
    case Take(k) => Taking(s.(takes := s.takes + [k]), k)
    case ResumeTake(i) => Taking(s.(wokenTakers := Without(s.wokenTakers, i)), s.wokenTakers[i])
    case Close => Closing(s)
  }

  // ---------- Invariants ----------

  function Items<T>(ps: seq<Pusher<T>>): seq<T> {
    seq(|ps|, i requires 0 <= i < |ps| => ps[i].item)
  }

  /** The items takes have returned, in order. */
  function Received<T>(receipts: seq<Option<T>>): seq<T> {
    if receipts == [] then []
    else
      var last := receipts[|receipts| - 1];
      Received(receipts[..|receipts| - 1]) + if last.Some? then [last.value] else []
  }

  function Free<T(==)>(s: State<T>): nat {
    if |s.buffer| < s.maxSize then s.maxSize - |s.buffer| else 0
  }

  /**
   * No lost wakeup, short of `p` pushers and `k` takers that are about to run: whoever waits does so
   * behind at least as many woken ones as there is room, or are items, to have.
   */
  ghost predicate NoLostWakeup<T>(s: State<T>, p: nat, k: nat) {
    && (s.pushWaiters != [] ==> |s.wokenPushers| + p >= Free(s))
    && (s.takeWaiters != [] ==> |s.wokenTakers| + k >= |s.buffer|)
  }

  /** Items leave in the order they were appended, and never more than the bound are held. */
  ghost predicate InOrder<T>(s: State<T>) {
    && Received(s.receipts) + s.buffer == Items(s.appended)
    && (s.buffer != [] ==> |s.buffer| <= s.maxSize)
  }

  ghost predicate SawNull<T>(receipts: seq<Option<T>>) {
    exists i :: 0 <= i < |receipts| && receipts[i].None?
  }

  /** After closing nobody waits; only then is an item dropped, and only on an empty queue a null returned. */
  ghost predicate ClosesCleanly<T>(s: State<T>) {
    && (s.closed ==> s.pushWaiters == [] && s.takeWaiters == [])
    && (s.dropped != [] ==> s.closed)
    && (SawNull(s.receipts) ==> s.closed && s.buffer == [])
  }

  function CountIn<X(==)>(xs: seq<X>, x: X): nat {
    if xs == [] then 0 else CountIn(xs[..|xs| - 1], x) + if xs[|xs| - 1] == x then 1 else 0
  }

  /** A push but for `p` has ended in exactly one place, as often as it was called, or waits in one. */
  ghost predicate PushBalance<T>(s: State<T>, p: Option<Pusher<T>>, x: Pusher<T>) {
    CountIn(s.pushes, x) == CountIn(s.appended, x) + CountIn(s.dropped, x)
                            + CountIn(s.pushWaiters, x) + CountIn(s.wokenPushers, x)
                            + if p == Some(x) then 1 else 0
  }

  /** A take but for `k` has returned, as often as it was called, or waits in one place. */
  ghost predicate TakeBalance<T>(s: State<T>, k: Option<Taker>, x: Taker) {
    CountIn(s.takes, x) == CountIn(s.returned, x)
                           + CountIn(s.takeWaiters, x) + CountIn(s.wokenTakers, x)
                           + if k == Some(x) then 1 else 0
  }

  ghost predicate Conserved<T(!new)>(s: State<T>) {
    && (forall x: Pusher<T> :: PushBalance(s, None, x))
    && (forall x: Taker :: TakeBalance(s, None, x))
  }

  ghost predicate Inv<T(!new)>(s: State<T>) {
    && NoLostWakeup(s, 0, 0)
    && InOrder(s)
    && ClosesCleanly(s)
    && Conserved(s)
  }

  lemma OneMoreReceipt<T>(receipts: seq<Option<T>>, r: Option<T>)
    ensures Received(receipts + [r]) == Received(receipts) + if r.Some? then [r.value] else []
    ensures SawNull(receipts + [r]) <==> SawNull(receipts) || r.None?
  {
    var more := receipts + [r];
    assert more[..|receipts|] == receipts;
    assert more[|receipts|] == r;
    assert forall i | 0 <= i < |receipts| :: more[i] == receipts[i];
  }

  lemma CountOneMore<X>(xs: seq<X>, y: X, x: X)
    ensures CountIn(xs + [y], x) == CountIn(xs, x) + if x == y then 1 else 0
  {
    assert (xs + [y])[..|xs|] == xs;
  }

  lemma {:induction false} CountAppend<X>(xs: seq<X>, ys: seq<X>, x: X)
    ensures CountIn(xs + ys, x) == CountIn(xs, x) + CountIn(ys, x)
    decreases |ys|
  {
    if ys == [] {
      assert xs + ys == xs;
    } else {
      var n := |ys| - 1;
      CountAppend(xs, ys[..n], x);
      assert (xs + ys)[..|xs + ys| - 1] == xs + ys[..n];
    }
  }

  lemma CountWithout<X>(xs: seq<X>, i: nat, x: X)
    requires i < |xs|
    ensures CountIn(xs, x) == CountIn(Without(xs, i), x) + if x == xs[i] then 1 else 0
  {
    hide CountIn;
    var a, b := xs[..i], xs[i + 1..];
    assert xs == (a + [xs[i]]) + b && Without(xs, i) == a + b;
    CountAppend(a + [xs[i]], b, x);
    CountAppend(a, b, x);
    CountOneMore(a, xs[i], x);
  }

  /** Moving the first of some waiters behind some woken ones keeps the count of both together. */
  lemma Woken<X>(waiting: seq<X>, woken: seq<X>, x: X)
    requires waiting != []
    ensures CountIn(waiting[1..], x) + CountIn(woken + [waiting[0]], x) == CountIn(waiting, x) + CountIn(woken, x)
  {
    CountWithout(waiting, 0, x);
    assert Without(waiting, 0) == waiting[1..];
    CountOneMore(woken, waiting[0], x);
  }

  /** A push about to run, and so not among the waiting or the woken, leaves wakeups and order intact. */
  lemma PushingKeepsQueue<T>(s: State<T>, p: Pusher<T>)
    requires NoLostWakeup(s, 1, 0) && InOrder(s) && ClosesCleanly(s)
    ensures NoLostWakeup(Pushing(s, p), 0, 0) && InOrder(Pushing(s, p)) && ClosesCleanly(Pushing(s, p))
  {
    assert Items(s.appended + [p]) == Items(s.appended) + [p.item];
  }

  lemma PushingBalancesPushes<T>(s: State<T>, p: Pusher<T>, x: Pusher<T>)
    requires PushBalance(s, Some(p), x)
    ensures PushBalance(Pushing(s, p), None, x)
  {
    hide CountIn;
    if |s.buffer| >= s.maxSize && !s.closed {
      CountOneMore(s.pushWaiters, p, x);
    } else if s.closed {
      CountOneMore(s.dropped, p, x);
    } else {
      CountOneMore(s.appended, p, x);
    }
  }

  lemma PushingBalancesTakes<T>(s: State<T>, p: Pusher<T>, x: Taker)
    requires TakeBalance(s, None, x)
    ensures TakeBalance(Pushing(s, p), None, x)
  {
    if s.takeWaiters != [] {
      Woken(s.takeWaiters, s.wokenTakers, x);
    }
  }

  /** A take wakes a pusher for each slot it frees. */
  lemma TakingWakes<T>(s: State<T>, k: Taker)
    requires NoLostWakeup(s, 0, 1)
    ensures NoLostWakeup(Taking(s, k), 0, 0)
  {
  }

  /** It returns items in order, and null only on a queue that is closed and empty. */
  lemma TakingKeepsOrder<T>(s: State<T>, k: Taker)
    requires InOrder(s) && ClosesCleanly(s)
    ensures InOrder(Taking(s, k)) && ClosesCleanly(Taking(s, k))
  {
    hide Received, Items, SawNull;
    if s.buffer != [] {
      OneMoreReceipt(s.receipts, Some(s.buffer[0]));
      assert [s.buffer[0]] + s.buffer[1..] == s.buffer;
    } else if s.closed {
      OneMoreReceipt(s.receipts, None);
    }
  }

  lemma TakingBalancesTakes<T>(s: State<T>, k: Taker, x: Taker)
    requires TakeBalance(s, Some(k), x)
    ensures TakeBalance(Taking(s, k), None, x)
  {
    hide CountIn;
    if s.buffer == [] && !s.closed {
      CountOneMore(s.takeWaiters, k, x);
    } else {
      CountOneMore(s.returned, k, x);
    }
  }

  lemma TakingBalancesPushes<T>(s: State<T>, k: Taker, x: Pusher<T>)
    requires PushBalance(s, None, x)
    ensures PushBalance(Taking(s, k), None, x)
  {
    var t := Taking(s, k);
    if s.buffer != [] && s.pushWaiters != [] {
      Woken(s.pushWaiters, s.wokenPushers, x);
      assert t.pushWaiters == s.pushWaiters[1..] && t.wokenPushers == s.wokenPushers + [s.pushWaiters[0]];
    } else {
      assert t.pushWaiters == s.pushWaiters && t.wokenPushers == s.wokenPushers;
    }
  }

  lemma StepKeepsQueue<T>(s: State<T>, step: Step<T>)
    requires Enabled(s, step) && NoLostWakeup(s, 0, 0) && InOrder(s) && ClosesCleanly(s)
    ensures var t := After(s, step); NoLostWakeup(t, 0, 0) && InOrder(t) && ClosesCleanly(t)
  {
    match step
    case Push(p) => PushingKeepsQueue(s.(pushes := s.pushes + [p]), p);
    case ResumePush(i) => PushingKeepsQueue(s.(wokenPushers := Without(s.wokenPushers, i)), s.wokenPushers[i]);
    case Take(k) =>
      TakingWakes(s.(takes := s.takes + [k]), k);
      TakingKeepsOrder(s.(takes := s.takes + [k]), k);
    case ResumeTake(i) =>
      var t := s.(wokenTakers := Without(s.wokenTakers, i));
      TakingWakes(t, s.wokenTakers[i]);
      TakingKeepsOrder(t, s.wokenTakers[i]);
    case Close =>
  }

  lemma StepBalancesPushes<T>(s: State<T>, step: Step<T>, x: Pusher<T>)
    requires Enabled(s, step) && PushBalance(s, None, x)
    ensures PushBalance(After(s, step), None, x)
  {
    match step
    case Push(p) =>
      CountOneMore(s.pushes, p, x);
      PushingBalancesPushes(s.(pushes := s.pushes + [p]), p, x);
    case ResumePush(i) =>
      CountWithout(s.wokenPushers, i, x);
      PushingBalancesPushes(s.(wokenPushers := Without(s.wokenPushers, i)), s.wokenPushers[i], x);
    case Take(k) => TakingBalancesPushes(s.(takes := s.takes + [k]), k, x);
    case ResumeTake(i) => TakingBalancesPushes(s.(wokenTakers := Without(s.wokenTakers, i)), s.wokenTakers[i], x);
    case Close => CountAppend(s.wokenPushers, s.pushWaiters, x);
  }

  lemma StepBalancesTakes<T>(s: State<T>, step: Step<T>, x: Taker)
    requires Enabled(s, step) && TakeBalance(s, None, x)
    ensures TakeBalance(After(s, step), None, x)
  {
    match step
    case Push(p) => PushingBalancesTakes(s.(pushes := s.pushes + [p]), p, x);
    case ResumePush(i) => PushingBalancesTakes(s.(wokenPushers := Without(s.wokenPushers, i)), s.wokenPushers[i], x);
    case Take(k) =>
      CountOneMore(s.takes, k, x);
      TakingBalancesTakes(s.(takes := s.takes + [k]), k, x);
    case ResumeTake(i) =>
      CountWithout(s.wokenTakers, i, x);
      TakingBalancesTakes(s.(wokenTakers := Without(s.wokenTakers, i)), s.wokenTakers[i], x);
    case Close => CountAppend(s.wokenTakers, s.takeWaiters, x);
  }

  lemma StepKeepsInv<T(!new)>(s: State<T>, step: Step<T>)
    requires Inv(s) && Enabled(s, step)
    ensures Inv(After(s, step))
  {
    StepKeepsQueue(s, step);
    forall x: Pusher<T> ensures PushBalance(After(s, step), None, x) {
      StepBalancesPushes(s, step, x);
    }
    forall x: Taker ensures TakeBalance(After(s, step), None, x) {
      StepBalancesTakes(s, step, x);
    }
  }

  /**
   * An item put in wakes the taker that has waited longest, and one taken out the pusher that has; the others
   * keep their places. Taking gives the oldest item.
   */
  lemma LongestWaitingWoken<T>(s: State<T>, p: Pusher<T>, k: Taker)
    ensures var t := Pushing(s, p);
      t.appended != s.appended ==>
        && t.buffer == s.buffer + [p.item] && t.appended == s.appended + [p]
        && t.wokenTakers == s.wokenTakers + (if s.takeWaiters == [] then [] else [s.takeWaiters[0]])
        && t.takeWaiters == (if s.takeWaiters == [] then [] else s.takeWaiters[1..])
    ensures var t := Taking(s, k);
      |t.buffer| < |s.buffer| ==>
        && t.buffer == s.buffer[1..] && t.receipts == s.receipts + [Some(s.buffer[0])] && t.returned == s.returned + [k]
        && t.wokenPushers == s.wokenPushers + (if s.pushWaiters == [] then [] else [s.pushWaiters[0]])
        && t.pushWaiters == (if s.pushWaiters == [] then [] else s.pushWaiters[1..])
  {
  }

  /**
   * A push waits exactly on a full queue that is open, and is dropped exactly on a closed one; a take waits
   * exactly on an empty one that is open, and returns null exactly on an empty one that is closed.
   */
  lemma WaitsIff<T>(s: State<T>, p: Pusher<T>, k: Taker)
    ensures Pushing(s, p).pushWaiters == s.pushWaiters + [p] <==> |s.buffer| >= s.maxSize && !s.closed
    ensures Pushing(s, p).dropped == s.dropped + [p] <==> s.closed
    ensures Taking(s, k).takeWaiters == s.takeWaiters + [k] <==> s.buffer == [] && !s.closed
    ensures Taking(s, k).receipts == s.receipts + [None] <==> s.buffer == [] && s.closed
  {
    assert |s.pushWaiters + [p]| == |s.pushWaiters| + 1 && |s.dropped + [p]| == |s.dropped| + 1;
    assert |s.takeWaiters + [k]| == |s.takeWaiters| + 1 && |s.receipts + [None]| == |s.receipts| + 1;
    assert s.buffer != [] ==> (s.receipts + [Some(s.buffer[0])])[|s.receipts|].Some?;
    assert (s.receipts + [None])[|s.receipts|].None?;
  }

  // ---------- Every interleaving ----------

  ghost predicate Run<T>(maxSize: int, states: seq<State<T>>, steps: seq<Step<T>>) {
    && |states| == |steps| + 1
    && states[0] == Fresh(maxSize)
    && forall i | 0 <= i < |steps| :: Enabled(states[i], steps[i]) && states[i + 1] == After(states[i], steps[i])
  }

  lemma FreshInv<T(!new)>(maxSize: int)
    ensures Inv(Fresh<T>(maxSize))
  {
  }

  lemma {:induction false} RunKeepsInv<T(!new)>(maxSize: int, states: seq<State<T>>, steps: seq<Step<T>>, i: nat)
    requires Run(maxSize, states, steps) && i < |states|
    ensures Inv(states[i]) && states[i].maxSize == maxSize
  {
    if i == 0 {
      FreshInv<T>(maxSize);
    } else {
      RunKeepsInv(maxSize, states, steps, i - 1);
      StepKeepsInv(states[i - 1], steps[i - 1]);
    }
  }

  /** Nothing is about to run. */
  ghost predicate Quiescent<T>(s: State<T>) {
    s.wokenPushers == [] && s.wokenTakers == []
  }

  /**
   * At rest a pusher waits only on a full queue and a taker only on an empty one, never both if the
   * queue has any room at all, and neither once it is closed.
   */
  lemma NobodyWaitsInVain<T(!new)>(maxSize: int, states: seq<State<T>>, steps: seq<Step<T>>, i: nat)
    requires Run(maxSize, states, steps) && i < |states| && Quiescent(states[i])
    ensures var s := states[i];
            && (s.pushWaiters != [] ==> !s.closed && |s.buffer| >= maxSize)
            && (s.takeWaiters != [] ==> !s.closed && s.buffer == [])
            && (s.pushWaiters != [] && s.takeWaiters != [] ==> maxSize < 1)
  {
    RunKeepsInv(maxSize, states, steps, i);
  }

  ghost predicate Deadlocked<T>(s: State<T>) {
    Quiescent(s) && s.pushWaiters != [] && s.takeWaiters != []
  }

  /** A pusher and a taker can come to wait on each other exactly when the bound leaves no room. */
  lemma DeadlockIffNoRoom(maxSize: int)
    ensures (exists states: seq<State<int>>, steps, i: nat ::
              Run(maxSize, states, steps) && i < |states| && Deadlocked(states[i]))
              <==> maxSize < 1
  {
    if maxSize < 1 {
      var steps := [Push(Pusher(0, 7)), Take(Taker(0))];
      var a := Fresh<int>(maxSize);
      var b := After(a, steps[0]);
      var c := After(b, steps[1]);
      assert Run(maxSize, [a, b, c], steps);
      assert Deadlocked([a, b, c][2]);
    }
    forall states: seq<State<int>>, steps, i: nat | Run(maxSize, states, steps) && i < |states| && Deadlocked(states[i])
      ensures maxSize < 1
    {
      NobodyWaitsInVain(maxSize, states, steps, i);
    }
  }

  /**
   * What a consumer may rely on: items come out in the order they went in, and once any take has
   * returned null every item ever appended has been received and no more will be.
   */
  lemma NullMeansDrained<T(!new)>(maxSize: int, states: seq<State<T>>, steps: seq<Step<T>>, i: nat, j: nat)
    requires Run(maxSize, states, steps) && i <= j < |states|
    ensures Received(states[i].receipts) <= Items(states[i].appended)
    ensures SawNull(states[i].receipts) ==> states[j].appended == states[i].appended
                                            && Received(states[i].receipts) == Items(states[i].appended)
  {
    RunKeepsInv(maxSize, states, steps, i);
    if SawNull(states[i].receipts) {
      ClosedStays(maxSize, states, steps, i, j);
    }
  }

  lemma {:induction false} ClosedStays<T>(maxSize: int, states: seq<State<T>>, steps: seq<Step<T>>, i: nat, j: nat)
    requires Run(maxSize, states, steps) && i <= j < |states| && states[i].closed
    ensures states[j].closed && states[j].appended == states[i].appended
  {
    if i < j {
      ClosedStays(maxSize, states, steps, i, j - 1);
      assert states[j] == After(states[j - 1], steps[j - 1]);
    }
  }

  // ---------- The class ----------

  /** The queue as written. A method returns false where its promise has to wait. */
  class BoundedQueue<T(==,!new)> {
    const maxSize: int
    var buffer: seq<T>
    var pushWaiters: seq<Pusher<T>>
    var takeWaiters: seq<Taker>
    var closed: bool

    // The event loop's side: continuations whose promise has been resolved.
    var wokenPushers: seq<Pusher<T>>
    var wokenTakers: seq<Taker>

    ghost var pushes: seq<Pusher<T>>
    ghost var takes: seq<Taker>
    ghost var appended: seq<Pusher<T>>
    ghost var dropped: seq<Pusher<T>>
    ghost var returned: seq<Taker>
    ghost var receipts: seq<Option<T>>

    ghost function Now(): State<T>
      reads this
    {
      State(maxSize, buffer, pushWaiters, takeWaiters, closed, wokenPushers, wokenTakers,
            pushes, takes, appended, dropped, returned, receipts)
    }

    constructor (maxSize: int)
      ensures Now() == Fresh(maxSize)
    {
      this.maxSize := maxSize;
      buffer, pushWaiters, takeWaiters, closed := [], [], [], false;
      wokenPushers, wokenTakers := [], [];
      pushes, takes, appended, dropped, returned, receipts := [], [], [], [], [], [];
    }

    method Push(p: Pusher<T>) returns (settled: bool)
      requires Inv(Now())
      modifies this
      ensures Now() == After(old(Now()), Step.Push(p)) && Inv(Now())
      ensures !settled ==> pushWaiters == old(pushWaiters) + [p]
    {
      StepKeepsInv(Now(), Step.Push(p));
      pushes := pushes + [p];
      settled := PushFromGuard(p);
    }

    method ResumePush(i: nat) returns (settled: bool)
      requires Inv(Now()) && i < |wokenPushers|
      modifies this
      ensures Now() == After(old(Now()), Step.ResumePush(i)) && Inv(Now())
      ensures !settled ==> pushWaiters == old(pushWaiters) + [old(wokenPushers)[i]]
    {
      StepKeepsInv(Now(), Step.ResumePush(i));
      var p := wokenPushers[i];
      wokenPushers := Without(wokenPushers, i);
      settled := PushFromGuard(p);
    }

    method PushFromGuard(p: Pusher<T>) returns (settled: bool)
      modifies this
      ensures Now() == Pushing(old(Now()), p)
      ensures !settled ==> pushWaiters == old(pushWaiters) + [p]
    {
      if |buffer| >= maxSize && !closed {
        pushWaiters := pushWaiters + [p];
        return false;
      }
      if closed {
        dropped := dropped + [p];
        return true;
      }
      buffer, appended := buffer + [p.item], appended + [p];
      if takeWaiters != [] {
        wokenTakers := wokenTakers + [takeWaiters[0]];
        takeWaiters := takeWaiters[1..];
      }
      settled := true;
    }

    method Take(k: Taker) returns (r: Taken<T>)
      requires Inv(Now())
      modifies this
      ensures Now() == After(old(Now()), Step.Take(k)) && Inv(Now())
      ensures receipts == old(receipts) + if r.Back? then [r.got] else []
    {
      StepKeepsInv(Now(), Step.Take(k));
      takes := takes + [k];
      r := TakeFromGuard(k);
    }

    method ResumeTake(i: nat) returns (r: Taken<T>)
      requires Inv(Now()) && i < |wokenTakers|
      modifies this
      ensures Now() == After(old(Now()), Step.ResumeTake(i)) && Inv(Now())
      ensures receipts == old(receipts) + if r.Back? then [r.got] else []
    {
      StepKeepsInv(Now(), Step.ResumeTake(i));
      var k := wokenTakers[i];
      wokenTakers := Without(wokenTakers, i);
      r := TakeFromGuard(k);
    }

    method TakeFromGuard(k: Taker) returns (r: Taken<T>)
      modifies this
      ensures Now() == Taking(old(Now()), k)
      ensures receipts == old(receipts) + if r.Back? then [r.got] else []
    {
      if buffer == [] && !closed {
        takeWaiters := takeWaiters + [k];
        return Waiting;
      }
      returned := returned + [k];
      if buffer == [] {
        receipts := receipts + [None];
        return Back(None);
      }
      r := Back(Some(buffer[0]));
      buffer, receipts := buffer[1..], receipts + [Some(buffer[0])];
      if pushWaiters != [] {
        wokenPushers := wokenPushers + [pushWaiters[0]];
        pushWaiters := pushWaiters[1..];
      }
    }

    method Close()
      requires Inv(Now())
      modifies this
      ensures Now() == After(old(Now()), Step.Close) && Inv(Now())
    {
      StepKeepsInv(Now(), Step.Close);
      WakeAll();
    }

    method WakeAll()
      modifies this
      ensures Now() == Closing(old(Now()))
    {
      closed := true;
      WakePushers();
      WakeTakers();
      pushWaiters, takeWaiters := [], [];
    }

    method WakePushers()
      modifies this`wokenPushers
      ensures wokenPushers == old(wokenPushers) + pushWaiters
    {
      for i := 0 to |pushWaiters|
        invariant wokenPushers == old(wokenPushers) + pushWaiters[..i]
      {
        wokenPushers := wokenPushers + [pushWaiters[i]];
      }
    }

    method WakeTakers()
      modifies this`wokenTakers
      ensures wokenTakers == old(wokenTakers) + takeWaiters
    {
      for i := 0 to |takeWaiters|
        invariant wokenTakers == old(wokenTakers) + takeWaiters[..i]
      {
        wokenTakers := wokenTakers + [takeWaiters[i]];
      }
    }
  }
}
