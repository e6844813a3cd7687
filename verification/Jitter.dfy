/** The 32-bit arithmetic by which OsclTimer re-arms itself after a tick (oscl_timer.h). */
module Jitter {
  import opened Words

  const HALF: int := 0x8000_0000

  /** The value as an int32. */
  function I32(x: int): (r: int)
    ensures -HALF <= r < HALF
  {
    if U32(x) < HALF then U32(x) else U32(x) - WORD
  }

  /** How late the tick is. */
  function Lateness(time: int, expected: int): int {
    I32(time - expected)
  }

  /** OSCL_ABS of an int32, read as an unsigned value. */
  function Magnitude(jitter: int): int {
    U32(if jitter > 0 then jitter else -jitter)
  }

  /** The wait until the next tick. */
  function Wait(time: int, expected: int, period: int): int {
    var w := I32(period - Lateness(time, expected));
    if w > 0 then w else 0
  }

  /** The new iExpectedTimeout: one period on, or, when the tick was too far off, the present time. */
  function NextExpected(time: int, expected: int, period: int): int {
    if Magnitude(Lateness(time, expected)) > period then time else U32(expected + period)
  }

  /** A signed difference stands for the unsigned one. */
  lemma LatenessIsExact(time: int, expected: int)
    ensures exists k :: time == expected + Lateness(time, expected) + k * WORD
  {
    var d := time - expected;
    assert d == WORD * (d / WORD) + U32(d);
    if U32(d) < HALF {
      assert time == expected + Lateness(time, expected) + (d / WORD) * WORD;
    } else {
      assert time == expected + Lateness(time, expected) + (d / WORD + 1) * WORD;
    }
  }

  predicate Steady(time: int, expected: int, period: int) {
    -period <= Lateness(time, expected) <= period
  }

  /** A tick no further off than a period is corrected completely: the wait is at most two
      periods and ends exactly at the new expected time, one period after the old one. */
  lemma SteadyTickIsCorrected(time: int, expected: int, period: int)
    requires 0 <= period < HALF / 2 && Steady(time, expected, period)
    ensures 0 <= Wait(time, expected, period) <= 2 * period
    ensures NextExpected(time, expected, period) == U32(expected + period)
    ensures U32(time + Wait(time, expected, period)) == NextExpected(time, expected, period)
  {
    var j := Lateness(time, expected);
    LatenessIsExact(time, expected);
    var k :| time == expected + j + k * WORD;
    assert Wait(time, expected, period) == period - j;
    Wraps(expected + period, k);
  }

  /** For every tick: the wait ends at the new expected time exactly when the tick was not more
      than a period early, or so early that the wait wrapped to nothing. */
  lemma WaitMeetsExpectationWhen(time: int, expected: int, period: int)
    requires 0 <= period < HALF / 2 && 0 <= time < WORD
    ensures U32(time + Wait(time, expected, period)) == NextExpected(time, expected, period)
       <==> Lateness(time, expected) >= -period || Lateness(time, expected) <= period - HALF
  {
    var j := Lateness(time, expected);
    if Steady(time, expected, period) {
      SteadyTickIsCorrected(time, expected, period);
    } else if -HALF + period < j < -period {
      assert Wait(time, expected, period) == period - j;
      assert NextExpected(time, expected, period) == time;
    } else {
      assert Wait(time, expected, period) == 0;
      assert NextExpected(time, expected, period) == time;
    }
  }

  /** A tick more than a period early: the wait still ends one period after the old expected time,
      more than two periods away, but the new expected time is the present. */
  lemma EarlyTickOvershoots(time: int, expected: int, period: int)
    requires 0 <= period < HALF / 2 && 0 <= time < WORD && period - HALF < Lateness(time, expected) < -period
    ensures NextExpected(time, expected, period) == time && Wait(time, expected, period) > 2 * period
    ensures U32(time + Wait(time, expected, period)) == U32(expected + period)
  {
    var j := Lateness(time, expected);
    LatenessIsExact(time, expected);
    var k :| time == expected + j + k * WORD;
    assert Wait(time, expected, period) == period - j;
    Wraps(expected + period, k);
  }

  /** What the alarm and the expected time must be after a tick at the given time.  No more than a
      period off, it is corrected: the alarm goes off at the new expected time, a period after the
      old one.  Later than that, the next tick is at once and the schedule starts from now.  Earlier
      than that, the schedule starts from now, too, but the wait still ends a period after the old
      expected time, unless it wraps to nothing. */
  predicate SetRight(delay: int, next: int, time: int, expected: int, period: int) {
    var jitter := I32(time - expected);
    && (-period <= jitter <= period ==>
         0 <= delay <= 2 * period && U32(time + delay) == next == U32(expected + period))
    && (jitter > period ==> delay == 0 && next == time)
    && (jitter < -period ==> next == time && delay == if jitter > period - HALF then period - jitter else 0)
  }

  lemma TickSetsRight(time: int, expected: int, period: int)
    requires 0 <= period < HALF / 2 && 0 <= time < WORD
    ensures SetRight(Wait(time, expected, period), NextExpected(time, expected, period), time, expected, period)
  {
    var jitter := Lateness(time, expected);
    if Steady(time, expected, period) {
      SteadyTickIsCorrected(time, expected, period);
    } else if jitter > period - HALF {
      assert jitter < -period ==> Wait(time, expected, period) == period - jitter;
      assert NextExpected(time, expected, period) == time;
    }
  }

  /** A tick 0.3 seconds late, with a period of a second: the wait is 0.7 seconds. */
  lemma LateTickIsCorrected()
    ensures Wait(2300000, 2000000, 1000000) == 700000 && NextExpected(2300000, 2000000, 1000000) == 3000000
  {
  }

  /** An input at which the wait misses the new expected time: a period of a second, and a tick
      one microsecond more than that too early. */
  lemma EarlyTickMisses()
    ensures var period, expected, time := 1000000, 10000000, 8999999;
            && Lateness(time, expected) == -period - 1
            && NextExpected(time, expected, period) == 8999999 && U32(time + Wait(time, expected, period)) == 11000000
  {
  }

  /** iExpectedTimeout after ticks at the given times, with no request in between. */
  function ExpectedAfter(times: seq<int>, start: int, period: int): int {
    if times == [] then start
    else NextExpected(times[|times| - 1], ExpectedAfter(times[..|times| - 1], start, period), period)
  }

  /** Where a schedule started, and the ticks there have been on it. */
  datatype Plan = Plan(start: Word, times: seq<int>)

  /** next is iExpectedTimeout; zero stands for no schedule. */
  datatype Schedule = Schedule(next: Word, plan: Plan)

  const REST: Schedule := Schedule(0, Plan(0, []))

  function StartAt(next: Word): Schedule {
    Schedule(next, Plan(next, []))
  }

  /** After a request at the given time. */
  function Joined(s: Schedule, time: int, period: int): Schedule {
    if s.next == 0 then StartAt(U32(time + period)) else s
  }

  /** After n requests; clock gives the time at each of them. */
  function AllJoined(s: Schedule, clock: nat -> Word, period: int, n: nat): Schedule {
    if n == 0 then s else Joined(AllJoined(s, clock, period, n - 1), clock(n - 1), period)
  }

  /** The k-th request leads from one schedule of the course to the next. */
  ghost predicate LeadsOn(course: seq<Schedule>, clock: nat -> Word, period: int, k: nat) {
    k + 1 < |course| && course[k + 1] == Joined(course[k], clock(k), period)
  }

  ghost predicate Leads(course: seq<Schedule>, clock: nat -> Word, period: int) {
    forall k {:trigger LeadsOn(course, clock, period, k)} :: 0 <= k < |course| - 1 ==> LeadsOn(course, clock, period, k)
  }

  /** The schedules before and after each of n requests. */
  ghost function CourseOf(s: Schedule, clock: nat -> Word, period: int, n: nat): (course: seq<Schedule>)
    ensures |course| == n + 1 && course[0] == s && course[n] == AllJoined(s, clock, period, n)
    ensures Leads(course, clock, period)
  {
    if n == 0 then [s]
    else
      var course := CourseOf(s, clock, period, n - 1);
      var longer := course + [Joined(course[n - 1], clock(n - 1), period)];
      assert Leads(longer, clock, period) by {
        forall k {:trigger LeadsOn(longer, clock, period, k)} | 0 <= k < n ensures LeadsOn(longer, clock, period, k) {
          assert k < n - 1 ==> LeadsOn(course, clock, period, k);
        }
      }
      longer
  }

  /** After a tick at the given time. */
  function Ahead(s: Schedule, time: Word, period: int): Schedule {
    Schedule(NextExpected(time, s.next, period), Plan(s.plan.start, s.plan.times + [time]))
  }

  /** es are the expected times of a schedule, one after the other, with ticks at the given times. */
  predicate Course(es: seq<int>, times: seq<int>, period: int) {
    && |es| == |times| + 1
    && forall i {:trigger times[i]} :: 0 <= i < |times| ==> es[i + 1] == NextExpected(times[i], es[i], period)
  }

  /** The expected time is where the ticks of the schedule have brought it. */
  ghost predicate Follows(s: Schedule, period: int) {
    exists es :: Course(es, s.plan.times, period) && es[0] == s.plan.start && es[|s.plan.times|] == s.next
  }

  lemma StartFollows(next: Word, period: int)
    ensures Follows(StartAt(next), period)
  {
    assert Course([next], [], period);
  }

  lemma {:induction false} CourseIs(es: seq<int>, times: seq<int>, period: int)
    requires Course(es, times, period)
    ensures es[|times|] == ExpectedAfter(times, es[0], period)
  {
    if times == [] {
    } else {
      var n := |times| - 1;
      CourseIs(es[..n + 1], times[..n], period);
    }
  }

  lemma FollowsIs(s: Schedule, period: int)
    requires Follows(s, period)
    ensures s.next == ExpectedAfter(s.plan.times, s.plan.start, period)
  {
    var es :| Course(es, s.plan.times, period) && es[0] == s.plan.start && es[|s.plan.times|] == s.next;
    CourseIs(es, s.plan.times, period);
  }

  lemma JoinedFollows(s: Schedule, time: int, period: int)
    requires Follows(s, period)
    ensures Follows(Joined(s, time, period), period)
  {
    StartFollows(U32(time + period), period);
  }

  lemma {:induction false} AllJoinedFollows(s: Schedule, clock: nat -> Word, period: int, n: nat)
    requires Follows(s, period)
    ensures Follows(AllJoined(s, clock, period, n), period)
  {
    if n == 0 {
    } else {
      AllJoinedFollows(s, clock, period, n - 1);
      JoinedFollows(AllJoined(s, clock, period, n - 1), clock(n - 1), period);
    }
  }

  lemma AheadFollows(s: Schedule, time: Word, period: int)
    requires Follows(s, period)
    ensures Follows(Ahead(s, time, period), period)
  {
    var es :| Course(es, s.plan.times, period) && es[0] == s.plan.start && es[|s.plan.times|] == s.next;
    assert Course(es + [NextExpected(time, s.next, period)], s.plan.times + [time], period);
  }

  /** A tick with n requests keeps to the schedule. */
  lemma TickFollows(s: Schedule, clock: nat -> Word, period: int, n: nat, time: Word)
    requires Follows(s, period)
    ensures Follows(Ahead(AllJoined(s, clock, period, n), time, period), period) && Follows(REST, period)
  {
    AllJoinedFollows(s, clock, period, n);
    AheadFollows(AllJoined(s, clock, period, n), time, period);
    StartFollows(0, period);
  }

  /** While a time is expected, requests leave the schedule alone. */
  lemma {:induction false} RequestsKeepSchedule(s: Schedule, clock: nat -> Word, period: int, n: nat)
    requires s.next != 0
    ensures AllJoined(s, clock, period, n) == s
  {
    if n == 0 {
    } else {
      RequestsKeepSchedule(s, clock, period, n - 1);
    }
  }

  /** n periods after start, on a uint32 clock. */
  function Periods(start: int, n: nat, period: int): int {
    if n == 0 then U32(start) else U32(Periods(start, n - 1, period) + period)
  }

  lemma {:induction false} PeriodsMultiply(start: int, n: nat, period: int)
    ensures Periods(start, n, period) == U32(start + n * period)
  {
    if n == 0 {
    } else {
      PeriodsMultiply(start, n - 1, period);
      U32Adds(start + (n - 1) * period, period);
      assert start + (n - 1) * period + period == start + n * period;
    }
  }

  predicate SteadyAt(times: seq<int>, i: nat, start: int, period: int) {
    i < |times| && Steady(times[i], ExpectedAfter(times[..i], start, period), period)
  }

  predicate AllSteady(times: seq<int>, start: int, period: int) {
    forall i {:trigger SteadyAt(times, i, start, period)} :: 0 <= i < |times| ==> SteadyAt(times, i, start, period)
  }

  lemma SteadyTickAdvances(time: int, expected: int, period: int)
    requires 0 <= period < HALF / 2 && Steady(time, expected, period)
    ensures NextExpected(time, expected, period) == U32(expected + period)
  {
  }

  lemma SteadyBefore(times: seq<int>, n: nat, start: int, period: int)
    requires n <= |times| && AllSteady(times, start, period)
    ensures AllSteady(times[..n], start, period)
  {
    forall i {:trigger SteadyAt(times[..n], i, start, period)} | 0 <= i < n
      ensures SteadyAt(times[..n], i, start, period)
    {
      assert SteadyAt(times, i, start, period) && times[..n][..i] == times[..i];
    }
  }

  lemma {:induction false} SteadyTicksAddUp(times: seq<int>, start: int, period: int)
    requires 0 <= period < HALF / 2 && 0 <= start < WORD && AllSteady(times, start, period)
    ensures ExpectedAfter(times, start, period) == Periods(start, |times|, period)
  {
    if times == [] {
    } else {
      var n := |times| - 1;
      SteadyBefore(times, n, start, period);
      SteadyTicksAddUp(times[..n], start, period);
      assert SteadyAt(times, n, start, period);
      SteadyTickAdvances(times[n], ExpectedAfter(times[..n], start, period), period);
    }
  }

  /** No drift: after n steady ticks, and no request in between, the expected time is n periods
      after the start. */
  lemma NoDrift(times: seq<int>, start: int, period: int, n: nat)
    requires 0 <= period < HALF / 2 && 0 <= start < WORD && AllSteady(times, start, period) && n == |times|
    ensures ExpectedAfter(times, start, period) == U32(start + n * period)
  {
    calc {
      ExpectedAfter(times, start, period);
      { SteadyTicksAddUp(times, start, period); }
      Periods(start, n, period);
      { PeriodsMultiply(start, n, period); }
      U32(start + n * period);
    }
  }

  ghost predicate AllOnTime(s: Schedule, period: int) {
    Follows(s, period) && AllSteady(s.plan.times, s.plan.start, period)
  }

  /** After steady ticks a request leaves the expected time alone exactly when it is not the one
      that stands for none, or happens to be what the request would set it to. */
  lemma RequestKeepsScheduleWhen(s: Schedule, time: int, period: int)
    requires 0 <= period < HALF / 2 && AllOnTime(s, period)
    ensures Joined(s, time, period).next == s.next
       <==> U32(s.plan.start + |s.plan.times| * period) != 0 || U32(time + period) == 0
  {
    FollowsIs(s, period);
    NoDrift(s.plan.times, s.plan.start, period, |s.plan.times|);
  }

  /** A schedule that comes to zero: one steady tick a second before the clock wraps, and half a
      second after that a request, which starts over and puts the next tick half a second off. */
  lemma ScheduleAtZeroIsLost()
    ensures var period, start := 1000000, WORD - 1000000;
            var s := Ahead(StartAt(start), start, period);
            AllOnTime(s, period) && s.next == 0 && Joined(s, 500000, period).next == 1500000
  {
    var period, start := 1000000, WORD - 1000000;
    assert [start][..0] == [];
    StartFollows(start, period);
    AheadFollows(StartAt(start), start, period);
    assert SteadyAt([start], 0, start, period) && AllSteady([start], start, period);
  }
}
