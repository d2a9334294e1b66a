/** Open-market age of a round, agents/broadcaster/src/evm/staleness.ts; times are whole unix seconds. */
module Staleness {

  const HOUR := 3_600
  const DAY := 86_400
  const WEEK := 604_800
  const MAX_HOURS := 24 * 30

  /** `getUTCDay`: 0 is Sunday; the epoch fell on a Thursday. Division rounds down, before the epoch too. */
  function UtcDay(t: int): int {
    (t / DAY + 4) % 7
  }

  function UtcHours(t: int): int {
    t % DAY / HOUR
  }

  /** `isMarketClosed` */
  predicate IsMarketClosed(t: int) {
    var day := UtcDay(t);
    day == 6 || day == 0 || (day == 5 && UtcHours(t) >= 16)
  }

  // ---- The meaning: a count of seconds ----

  /** How many of the seconds from `from` up to, not including, `to` are open. */
  function OpenSeconds(from: int, until: int): nat
    decreases until - from
  {
    if from >= until then 0 else OpenSeconds(from, until - 1) + if IsMarketClosed(until - 1) then 0 else 1
  }

  /** Counting splits at any point between. */
  lemma {:induction false} OpenSecondsSplit(a: int, b: int, c: int)
    requires a <= b <= c
    ensures OpenSeconds(a, c) == OpenSeconds(a, b) + OpenSeconds(b, c)
    decreases c - b
  {
    if b < c {
      OpenSecondsSplit(a, b, c - 1);
    }
  }

  lemma {:induction false} OpenSecondsSame(from: int, until: int, closed: bool)
    requires from <= until && forall s | from <= s < until :: IsMarketClosed(s) == closed
    ensures OpenSeconds(from, until) == (if closed then 0 else until - from)
    decreases until - from
  {
    if from < until {
      OpenSecondsSame(from, until - 1, closed);
    }
  }

  /** The market opens and closes on the hour. */
  lemma SameHour(s: int, t: int)
    requires s / HOUR == t / HOUR
    ensures IsMarketClosed(s) == IsMarketClosed(t)
  {
    HourTellsDay(s);
    HourTellsDay(t);
  }

  lemma HourTellsDay(t: int)
    ensures t / DAY == t / HOUR / 24 && UtcHours(t) == t / HOUR % 24
  {
  }

  /** Closed exactly from Friday 16:00 to Monday 0:00, counting from a Thursday 0:00. */
  lemma ClosedWindow(t: int)
    ensures IsMarketClosed(t) <==> 144_000 <= t % 604_800 < 345_600
  {
    var weeks, rest := t / WEEK, t % WEEK;
    assert t == weeks * WEEK + rest;
    assert t / DAY == weeks * 7 + rest / DAY;
    assert t % DAY == rest % DAY;
  }

  lemma LaterInWeek(t: int, k: nat)
    ensures (t + WEEK) % WEEK == t % WEEK
    ensures t % WEEK + k < WEEK ==> (t + k) % WEEK == t % WEEK + k
  {
    var weeks := t / WEEK;
    assert t == weeks * WEEK + t % WEEK;
    assert (t + k) - weeks * WEEK == t % WEEK + k;
  }

  /** Every seven days, from any second on, the market is open for exactly 112 hours. */
  lemma OpenPerWeek(t: int)
    ensures OpenSeconds(t, t + 604_800) == 403_200
  {
    var into := t % WEEK;
    var start := t - into;
    var end := start + WEEK;
    WholeWeek(start);
    OpenSecondsSplit(start, t, end);
    OpenSecondsSplit(t, end, t + WEEK);
    WeekLater(start, t);
  }

  lemma WholeWeek(start: int)
    requires start % WEEK == 0
    ensures OpenSeconds(start, start + WEEK) == 112 * HOUR
  {
    var shut, open, end := start + 144_000, start + 345_600, start + WEEK;
    hide IsMarketClosed;
    forall s | start <= s < end ensures IsMarketClosed(s) == (shut <= s < open) {
      LaterInWeek(start, s - start);
      ClosedWindow(s);
    }
    OpenSecondsSame(start, shut, false);
    OpenSecondsSame(shut, open, true);
    OpenSecondsSame(open, end, false);
    OpenSecondsSplit(start, shut, open);
    OpenSecondsSplit(start, open, end);
  }

  lemma {:induction false} WeekLater(from: int, until: int)
    requires from <= until
    ensures OpenSeconds(from + WEEK, until + WEEK) == OpenSeconds(from, until)
    decreases until - from
  {
    hide IsMarketClosed;
    if from < until {
      WeekLater(from, until - 1);
      ClosedWindow(until - 1);
      ClosedWindow(until - 1 + WEEK);
      LaterInWeek(until - 1, 0);
    }
  }

  // ---- The loop ----

  function Min(a: int, b: int): int {
    if a <= b then a else b
  }

  /** Where `hours` hour-aligned segments from `from` end, at `to` at the latest. */
  function Walked(from: int, until: int, hours: nat): int {
    if hours == 0 then from else Min(until, (from / HOUR + hours) * HOUR)
  }

  /** The open seconds of the part of the span that the loop may walk. */
  function Age(from: int, until: int): nat {
    OpenSeconds(from, Walked(from, until, MAX_HOURS))
  }

  /** `marketAge`: the segment walk counts exactly the open seconds of the part it walks. */
  method MarketAge(fromSec: int, toSec: int) returns (open: int)
    ensures open == Age(fromSec, toSec)
  {
    hide IsMarketClosed;
    open := 0;
    var hours := 0;
    var t := fromSec;
    while t < toSec && hours < MAX_HOURS
      invariant 0 <= hours <= MAX_HOURS
      invariant fromSec <= t == Walked(fromSec, toSec, hours)
      invariant hours > 0 ==> fromSec < toSec
      invariant open == OpenSeconds(fromSec, t)
      decreases MAX_HOURS - hours
    {
      var next := Min(toSec, (t / HOUR + 1) * HOUR);
      forall s | t <= s < next ensures IsMarketClosed(s) == IsMarketClosed(t) {
        SameHour(s, t);
      }
      OpenSecondsSame(t, next, IsMarketClosed(t));
      OpenSecondsSplit(fromSec, t, next);
      if !IsMarketClosed(t) {
        open := open + (next - t);
      }
      t := next;
      hours := hours + 1;
    }
    ghost var end := Walked(fromSec, toSec, MAX_HOURS);
    if fromSec < toSec {
      assert t == end;
    } else {
      assert end <= fromSec;
    }
  }

  /** The end of what the loop can walk. */
  function Cap(from: int): int {
    (from / HOUR + MAX_HOURS) * HOUR
  }

  /** When the closed window around `t` ends. */
  function Reopening(t: int): int {
    t - t % WEEK + 345_600
  }

  /**
   * The capped age is the true open-market age exactly when the span ends within the cap, or the market
   * is closed at the cap and has not reopened by the end. The cap is 2,592,000 seconds from the start of
   * the hour the span begins in.
   */
  lemma AgeExactIff(from: int, until: int)
    ensures Cap(from) == from - from % 3_600 + 2_592_000
    ensures Age(from, until) == OpenSeconds(from, until) <==>
      until <= Cap(from) || (IsMarketClosed(Cap(from)) && until <= Reopening(Cap(from)))
  {
    hide IsMarketClosed, OpenSeconds;
    var cap := Cap(from);
    if until > cap {
      OpenSecondsSplit(from, cap, until);
      ClosedWindow(cap);
      if IsMarketClosed(cap) {
        var open := Reopening(cap);
        var stop := Min(until, open);
        LaterInWeek(cap, open - cap);
        ClosedUntil(cap, stop);
        OpenSecondsSplit(cap, stop, until);
        if until > open {
          FirstOpen(open, until);
        } else {
          NoneAfter(until);
        }
      } else {
        FirstOpen(cap, until);
      }
    }
  }

  lemma NoneAfter(t: int)
    ensures OpenSeconds(t, t) == 0
  {
  }

  lemma ClosedUntil(t: int, end: int)
    requires IsMarketClosed(t) && t <= end <= Reopening(t)
    ensures OpenSeconds(t, end) == 0
  {
    ClosedWindow(t);
    hide IsMarketClosed;
    forall s | t <= s < end ensures IsMarketClosed(s) {
      LaterInWeek(t, s - t);
      ClosedWindow(s);
    }
    OpenSecondsSame(t, end, true);
  }

  lemma FirstOpen(t: int, end: int)
    requires t < end && !(144_000 <= t % WEEK < 345_600)
    ensures OpenSeconds(t, end) > 0
  {
    ClosedWindow(t);
    OpenSecondsSplit(t, t + 1, end);
    OpenSecondsSame(t, t + 1, false);
  }

  lemma {:induction false} OpenSecondsBound(from: int, until: int)
    requires from <= until
    ensures OpenSeconds(from, until) <= until - from
    decreases until - from
  {
    if from < until {
      OpenSecondsBound(from, until - 1);
    }
  }

  /** However long the feed has been dead, the age is at most 2,592,000 seconds, 720 hours. */
  lemma AgeBounded(from: int, until: int)
    ensures Age(from, until) <= 2_592_000
  {
    var end := Walked(from, until, MAX_HOURS);
    if from < end {
      OpenSecondsBound(from, end);
    }
  }

  /** Ages add up over any split of a span within the cap. */
  lemma AgeAdds(a: int, b: int, c: int)
    requires a <= b <= c <= Cap(a)
    ensures Age(a, c) == Age(a, b) + Age(b, c)
  {
    hide OpenSeconds, IsMarketClosed;
    assert a / HOUR <= b / HOUR;
    OpenSecondsSplit(a, b, c);
    AgeExactIff(a, b);
    AgeExactIff(a, c);
    AgeExactIff(b, c);
  }

  /** A round exactly a week old has an age of 112 hours, whenever it was posted. */
  lemma AgeOfAWeek(from: int)
    ensures Age(from, from + 604_800) == 403_200
  {
    OpenPerWeek(from);
    AgeExactIff(from, from + WEEK);
  }

  /** The age of a round never falls as time passes, and it stands still exactly while the market is closed. */
  lemma AgeNextSecond(from: int, until: int)
    requires from <= until < Cap(from)
    ensures Age(from, until + 1) == Age(from, until) + (if IsMarketClosed(until) then 0 else 1)
  {
    AgeExactIff(from, until);
    AgeExactIff(from, until + 1);
  }

  /** Beyond the cap nothing counts: the age is what had been counted when the span reached it. */
  lemma AgeBeyondCap(from: int, until: int)
    requires until >= from - from % 3_600 + 2_592_000
    ensures Age(from, until) == OpenSeconds(from, from - from % 3_600 + 2_592_000)
  {
  }
}
