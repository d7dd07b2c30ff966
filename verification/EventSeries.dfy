/** Expanding a recurring event into its occurrences. */
module EventSeries {
  import opened Wrappers
  import opened Calendar
  import DueDates

  datatype Pattern = Once | Weekly | Monthly

  datatype SeriesError = EndDateRequired | NoEvents

  datatype Occurrence = Occurrence(start: Time, end: Time)

  const CAP: int := 365 * MS_PER_DAY

  function Step(t: Time, pattern: Pattern): Time {
    match pattern
    case Once => t
    case Weekly => DueDates.PlusDays(t, 7)
    case Monthly => DueDates.PlusMonths(t, 1)
  }

  function NthStep(t: Time, pattern: Pattern, k: nat): Time {
    if k == 0 then t else Step(NthStep(t, pattern, k - 1), pattern)
  }

  /** The last instant at which an occurrence may start: the end date, at most 365 days on. */
  function Boundary(start: Time, endDate: Option<Time>): Time {
    var wanted := if endDate.Some? then endDate.value else start;
    if wanted > start + CAP then start + CAP else wanted
  }

  /** The occurrences are the successive steps from the first one, and the next would start too late. */
  ghost predicate IsSeries(events: seq<Occurrence>, start: Time, end: Time, pattern: Pattern, boundary: Time) {
    && events != []
    && (forall k :: 0 <= k < |events| ==> events[k] == Occurrence(NthStep(start, pattern, k), NthStep(end, pattern, k)))
    && (forall k :: 0 <= k < |events| ==> events[k].start <= boundary)
    && (pattern.Once? ==> |events| == 1)
    && (!pattern.Once? ==> NthStep(start, pattern, |events|) > boundary)
  }

  lemma StepForward(t: Time, pattern: Pattern)
    requires !pattern.Once?
    ensures Step(t, pattern) >= t + (if pattern.Weekly? then 7 else 28) * MS_PER_DAY
  {
    if pattern.Monthly? {
      DueDates.MonthStepAddsMonthLength(t);
    }
  }

  method StepDate(date: JsDate, pattern: Pattern)
    requires !pattern.Once?
    modifies date
    ensures date.time == Step(old(date.time), pattern)
  {
    hide MonthOf, MonthStart;
    InstantIsMade(date.time);
    DayIsMade(DayOf(date.time));
    if pattern.Weekly? {
      date.SetDate(date.GetDate() + 7);
    } else {
      date.SetMonth(date.GetMonth() + 1);
    }
  }

  /** The generating loop of event creation, stepping both dates of the occurrence in place. */
  method Expand(start: Time, end: Time, pattern: Pattern, endDate: Option<Time>)
    returns (r: Result<seq<Occurrence>, SeriesError>)
    ensures r == Err(EndDateRequired) <==> !pattern.Once? && endDate.None?
    ensures r == Err(NoEvents) <==>
            endDate.Some? && endDate.value < start
    ensures r.Ok? ==> IsSeries(r.value, start, end, pattern, Boundary(start, endDate))
  {
    hide Step;
    if !pattern.Once? && endDate.None? {
      return Err(EndDateRequired);
    }
    var boundary := if endDate.Some? then endDate.value else start;
    if boundary > start + CAP {
      boundary := start + CAP;
    }
    var events: seq<Occurrence> := [];
    var currentStart := new JsDate(start);
    var currentEnd := new JsDate(end);
    while currentStart.time <= boundary
      invariant currentStart != currentEnd && fresh(currentStart) && fresh(currentEnd)
      invariant currentStart.time == NthStep(start, pattern, |events|)
      invariant currentEnd.time == NthStep(end, pattern, |events|)
      invariant forall k :: 0 <= k < |events| ==>
                  && events[k] == Occurrence(NthStep(start, pattern, k), NthStep(end, pattern, k))
                  && events[k].start <= boundary
      invariant events == [] ==> currentStart.time == start
      invariant pattern.Once? ==> events == []
      decreases boundary - currentStart.time
    {
      events := events + [Occurrence(currentStart.time, currentEnd.time)];
      if pattern.Once? {
        break;
      }
      StepForward(currentStart.time, pattern);
      StepDate(currentStart, pattern);
      StepDate(currentEnd, pattern);
    }
    if |events| == 0 {
      return Err(NoEvents);
    }
    r := Ok(events);
  }

  // ----- shape of a series

  lemma {:induction false} StepsForward(t: Time, pattern: Pattern, j: nat, k: nat)
    requires !pattern.Once? && j <= k
    ensures NthStep(t, pattern, k) >= NthStep(t, pattern, j) + (k - j) * 7 * MS_PER_DAY
  {
    if j < k {
      StepsForward(t, pattern, j, k - 1);
      StepForward(NthStep(t, pattern, k - 1), pattern);
    }
  }

  /** Starts increase strictly, from the first start up to at most the boundary. */
  lemma StartsIncrease(events: seq<Occurrence>, start: Time, end: Time, pattern: Pattern, boundary: Time, j: nat,
                       k: nat)
    requires IsSeries(events, start, end, pattern, boundary)
    requires j < k < |events|
    ensures start <= events[j].start < events[k].start <= boundary
  {
    StepsForward(start, pattern, 0, j);
    StepsForward(start, pattern, j, k);
  }

  /**
   A recurring series leaves out no step: the k-th is listed exactly when it starts no later
   than the end date and no later than 365 days after the first.
   */
  lemma SeriesIsComplete(events: seq<Occurrence>, start: Time, end: Time, pattern: Pattern, endDate: Time, k: nat)
    requires !pattern.Once? && IsSeries(events, start, end, pattern, Boundary(start, Some(endDate)))
    ensures k < |events| <==>
            NthStep(start, pattern, k) <= endDate && NthStep(start, pattern, k) <= start + 31_536_000_000
  {
    if k < |events| {
      assert events[k].start == NthStep(start, pattern, k);
    } else {
      StepsForward(start, pattern, |events|, k);
    }
  }

  lemma {:induction false} WeeklySteps(t: Time, k: nat)
    ensures NthStep(t, Weekly, k) == t + k * 7 * MS_PER_DAY
  {
    if k > 0 {
      WeeklySteps(t, k - 1);
    }
  }

  /** A weekly series has one occurrence for each whole week up to the boundary, and at most 53. */
  lemma WeeklyCount(events: seq<Occurrence>, start: Time, end: Time, endDate: Option<Time>)
    requires IsSeries(events, start, end, Weekly, Boundary(start, endDate))
    ensures |events| == (Boundary(start, endDate) - start) / (7 * MS_PER_DAY) + 1
    ensures |events| <= 53
  {
    var week := 7 * MS_PER_DAY;
    var n := |events|;
    var span := Boundary(start, endDate) - start;
    WeeklySteps(start, n);
    WeeklySteps(start, n - 1);
    assert events[n - 1].start == start + (n - 1) * week <= Boundary(start, endDate);
    assert (n - 1) * week <= span < n * week;
    QuotientIs(span, week, n - 1);
    AtMostAYearOfWeeks(n - 1, week);
  }

  lemma QuotientIs(a: int, b: int, q: int)
    requires b > 0 && q * b <= a < (q + 1) * b
    ensures a / b == q
  {
    var p := a / b;
    assert p * b <= a < (p + 1) * b;
    Cancel(p, q + 1, b);
    Cancel(q, p + 1, b);
  }

  lemma Cancel(x: int, y: int, b: int)
    requires b > 0 && x * b < y * b
    ensures x < y
  {
    assert (x - y) * b < 0;
  }

  lemma AtMostAYearOfWeeks(q: int, week: int)
    requires week == 7 * MS_PER_DAY && q * week <= CAP
    ensures q <= 52
  {
  }

  // ----- monthly series

  function MonthNow(t: Time): int {
    MonthOf(DayOf(t))
  }

  /** Month steps either stay on the same day of consecutive months or have already skipped a month. */
  lemma {:induction false} MonthlySteps(t: Time, k: nat)
    ensures var u := NthStep(t, Monthly, k);
            && TimeInDay(u) == TimeInDay(t)
            && (|| (MonthNow(u) == MonthNow(t) + k && DateOf(DayOf(u)) == DateOf(DayOf(t)))
                || MonthNow(u) > MonthNow(t) + k)
  {
    hide MonthOf, MonthStart, MonthLength, DateOf;
    if k > 0 {
      MonthlySteps(t, k - 1);
      DueDates.MonthStepOverflowsExactly(NthStep(t, Monthly, k - 1));
    }
  }

  /** Thirteen month steps always pass the 365-day cap, although twelve months of 28 days would not. */
  lemma ThirteenStepsPassCap(t: Time)
    ensures NthStep(t, Monthly, 13) > t + CAP
  {
    hide MonthOf, MonthStart, MonthLength, NthStep;
    var u := NthStep(t, Monthly, 13);
    MonthlySteps(t, 13);
    InstantIsMade(t);
    InstantIsMade(u);
    DayIsMade(DayOf(t));
    DayIsMade(DayOf(u));
    var m, m' := MonthNow(t), MonthNow(u);
    TwelveMonths(m);
    TwelveMonths(m + 1);
    MonthStep(m);
    MonthStep(m + 12);
    MonthStep(m + 13);
    if m' == m + 13 {
      assert DayOf(u) - DayOf(t) == MonthStart(m + 13) - MonthStart(m);
    } else {
      MonthsIncrease(m + 14, m');
      assert m + 13 == (m + 1) + 12;
      assert DayOf(u) - DayOf(t) > MonthStart(m + 14) - MonthStart(m + 1);
    }
  }

  /** A monthly series has at most 13 occurrences. */
  lemma MonthlyCount(events: seq<Occurrence>, start: Time, end: Time, endDate: Option<Time>)
    requires IsSeries(events, start, end, Monthly, Boundary(start, endDate))
    ensures |events| <= 13
  {
    hide NthStep;
    assert |events| > 13 ==> NthStep(start, Monthly, 13) == events[13].start <= Boundary(start, endDate);
    ThirteenStepsPassCap(start);
  }

  // ----- durations

  /** One step keeps the duration exactly when both ends are in months of the same length (always, weekly). */
  lemma StepKeepsDurationExactly(start: Time, end: Time, pattern: Pattern)
    ensures Step(end, pattern) - Step(start, pattern) == end - start <==>
            pattern.Monthly? ==> MonthLength(MonthNow(start)) == MonthLength(MonthNow(end))
  {
    hide MonthOf, MonthLength;
    if pattern.Monthly? {
      DueDates.MonthStepAddsMonthLength(start);
      DueDates.MonthStepAddsMonthLength(end);
    }
  }

  /** Two instants of one day step to two instants of one day. */
  lemma StepSameDay(s: Time, e: Time, pattern: Pattern)
    requires DayOf(s) == DayOf(e)
    ensures DayOf(Step(s, pattern)) == DayOf(Step(e, pattern))
    ensures Step(e, pattern) - Step(s, pattern) == e - s
  {
    hide MonthOf, MonthLength, MonthStart, DateOf;
    StepKeepsDurationExactly(s, e, pattern);
    InstantIsMade(s);
    InstantIsMade(e);
    if pattern.Monthly? {
      var day := MakeDay(MonthOf(DayOf(s)) + 1, DateOf(DayOf(s)));
      AtTimeReadsBack(day, TimeInDay(s));
      AtTimeReadsBack(day, TimeInDay(e));
    } else if pattern.Weekly? {
      DueDates.PlusDaysMoves(s, 7);
      DueDates.PlusDaysMoves(e, 7);
    }
  }

  lemma {:induction false} SameDayStays(start: Time, end: Time, pattern: Pattern, k: nat)
    requires DayOf(start) == DayOf(end) || pattern.Weekly?
    ensures NthStep(end, pattern, k) - NthStep(start, pattern, k) == end - start
    ensures DayOf(start) == DayOf(end) ==> DayOf(NthStep(start, pattern, k)) == DayOf(NthStep(end, pattern, k))
  {
    hide DayOf, Step;
    if k > 0 {
      SameDayStays(start, end, pattern, k - 1);
      var s, e := NthStep(start, pattern, k - 1), NthStep(end, pattern, k - 1);
      StepKeepsDurationExactly(s, e, pattern);
      if DayOf(start) == DayOf(end) {
        StepSameDay(s, e, pattern);
      }
    }
  }

  /** Every weekly series, and every monthly series of events within one calendar day, keeps its duration. */
  lemma DurationKept(events: seq<Occurrence>, start: Time, end: Time, pattern: Pattern, boundary: Time, k: nat)
    requires IsSeries(events, start, end, pattern, boundary) && k < |events|
    requires pattern.Monthly? ==> DayOf(start) == DayOf(end)
    ensures events[k].end - events[k].start == end - start
  {
    if !pattern.Once? {
      SameDayStays(start, end, pattern, k);
    }
  }

  /**
   Exactly when a monthly step turns an event around, so that it ends before it starts: it is
   shorter than what the month its start leaves is longer than the month its end leaves. No
   event of three days or more is.
   */
  lemma StepTurnsAroundExactly(start: Time, end: Time)
    ensures Step(end, Monthly) < Step(start, Monthly) <==>
            end - start < (MonthLength(MonthNow(start)) - MonthLength(MonthNow(end))) * MS_PER_DAY
    ensures end - start >= 3 * MS_PER_DAY ==> Step(end, Monthly) >= Step(start, Monthly)
  {
    hide MonthOf;
    DueDates.MonthStepAddsMonthLength(start);
    DueDates.MonthStepAddsMonthLength(end);
  }

  /** The first of the `k` months after `month` that is shorter than `day`, counted from one; zero if none is. */
  function FirstShort(month: int, day: int, k: nat): (j: nat)
    ensures j <= k
    ensures j > 0 ==> MonthLength(month + j) < day
  {
    if k == 0 then 0
    else
      var before := FirstShort(month, day, k - 1);
      if before > 0 then before else if MonthLength(month + k) < day then k else 0
  }

  /** The month that `k` monthly steps from a day of a month lead to: one further once a short month was skipped. */
  function LandsIn(month: int, day: int, k: nat): int {
    month + k + (if FirstShort(month, day, k) > 0 then 1 else 0)
  }

  /** The day of that month: the same, or what overflowed the short month. */
  function LandsOn(month: int, day: int, k: nat): int {
    var j := FirstShort(month, day, k);
    if j > 0 then day - MonthLength(month + j) else day
  }

  /** Where any number of monthly steps ends, from the calendar alone. */
  lemma {:induction false} NthStepLands(t: Time, k: nat)
    ensures var u, m, d := NthStep(t, Monthly, k), MonthNow(t), DateOf(DayOf(t));
            && MonthNow(u) == LandsIn(m, d, k) && DateOf(DayOf(u)) == LandsOn(m, d, k) && TimeInDay(u) == TimeInDay(t)
            && (FirstShort(m, d, k) > 0 ==> 1 <= LandsOn(m, d, k) <= 3)
  {
    hide MonthOf, MonthStart, MonthLength, DateOf;
    DayIsMade(DayOf(t));
    if k > 0 {
      NthStepLands(t, k - 1);
      DueDates.MonthStepOverflowsExactly(NthStep(t, Monthly, k - 1));
    }
  }

  /** Earlier by month, then by day, then by time of day. */
  predicate Earlier(month: int, day: int, time: int, month': int, day': int, time': int) {
    month < month' || (month == month' && (day < day' || (day == day' && time < time')))
  }

  lemma EarlierIsBefore(u: Time, v: Time)
    ensures u < v <==>
            Earlier(MonthNow(u), DateOf(DayOf(u)), TimeInDay(u), MonthNow(v), DateOf(DayOf(v)), TimeInDay(v))
  {
    hide MonthOf, MonthStart, MonthLength, DateOf;
    InstantIsMade(u);
    InstantIsMade(v);
    DayIsMade(DayOf(u));
    DayIsMade(DayOf(v));
    LaterMonthLaterDay(DayOf(u), DayOf(v));
    LaterMonthLaterDay(DayOf(v), DayOf(u));
  }

  lemma LaterMonthLaterDay(a: int, b: int)
    ensures MonthOf(a) < MonthOf(b) ==> a < b
    ensures MonthOf(a) == MonthOf(b) ==> b - a == DateOf(b) - DateOf(a)
  {
    hide MonthOf, MonthStart, MonthLength, DateOf;
    DayIsMade(a);
    DayIsMade(b);
    if MonthOf(a) < MonthOf(b) {
      MonthStep(MonthOf(a));
      MonthsIncrease(MonthOf(a) + 1, MonthOf(b));
    }
  }

  /**
   Exactly when an occurrence of a monthly series ends before it starts, by the months, days
   and times of day of the first one and the lengths of the months that follow.
   */
  lemma OccurrenceTurnsAroundExactly(events: seq<Occurrence>, start: Time, end: Time, boundary: Time, k: nat)
    requires IsSeries(events, start, end, Monthly, boundary) && k < |events|
    ensures var m, d, n, e := MonthNow(start), DateOf(DayOf(start)), MonthNow(end), DateOf(DayOf(end));
            events[k].end < events[k].start <==>
            Earlier(LandsIn(n, e, k), LandsOn(n, e, k), TimeInDay(end),
                    LandsIn(m, d, k), LandsOn(m, d, k), TimeInDay(start))
  {
    hide MonthOf, MonthStart, MonthLength, DateOf, TimeInDay, DayOf, FirstShort, Earlier, LandsIn, LandsOn;
    NthStepLands(start, k);
    NthStepLands(end, k);
    EarlierIsBefore(events[k].end, events[k].start);
  }

  /** Its duration, in the same terms. */
  lemma OccurrenceLasts(events: seq<Occurrence>, start: Time, end: Time, boundary: Time, k: nat)
    requires IsSeries(events, start, end, Monthly, boundary) && k < |events|
    ensures var m, d, n, e := MonthNow(start), DateOf(DayOf(start)), MonthNow(end), DateOf(DayOf(end));
            events[k].end - events[k].start ==
            AtTime(MakeDay(LandsIn(n, e, k), LandsOn(n, e, k)), TimeInDay(end))
            - AtTime(MakeDay(LandsIn(m, d, k), LandsOn(m, d, k)), TimeInDay(start))
  {
    hide MonthOf, MonthStart, MonthLength, DateOf, FirstShort, LandsIn, LandsOn;
    NthStepLands(start, k);
    NthStepLands(end, k);
    InstantIsMade(events[k].start);
    InstantIsMade(events[k].end);
    DayIsMade(DayOf(events[k].start));
    DayIsMade(DayOf(events[k].end));
  }

  /** The months and days of an event of three days or more, in the order its ends keep from then on. */
  lemma ThreeDaysApart(m: int, d: int, n: int, e: int, k: nat)
    requires 1 <= d <= MonthLength(m) && 1 <= e <= MonthLength(n)
    requires MonthStart(n) + e >= MonthStart(m) + d + 3
    ensures LandsIn(m, d, k) < LandsIn(n, e, k)
            || (LandsIn(m, d, k) == LandsIn(n, e, k) && LandsOn(m, d, k) <= LandsOn(n, e, k))
    ensures LandsIn(m, d, k) == LandsIn(n, e, k) && LandsOn(m, d, k) == LandsOn(n, e, k) ==>
              MonthStart(n) + e == MonthStart(m) + d + 3
  {
    hide MonthStart, MonthLength;
    MonthStep(m);
    if n < m {
      MonthStep(n);
      MonthsIncrease(n + 1, m);
      assert false;
    }
    if n == m {
      NoneShortUpTo28(m, d, k);
    }
  }

  lemma {:induction false} NoneShortUpTo28(month: int, day: int, k: nat)
    requires day <= 28
    ensures FirstShort(month, day, k) == 0
  {
    hide MonthLength;
    if k > 0 {
      NoneShortUpTo28(month, day, k - 1);
    }
  }

  /** No occurrence of a monthly event of three days or more ends before it starts. */
  lemma ThreeDaysNeverTurnAround(events: seq<Occurrence>, start: Time, end: Time, boundary: Time, k: nat)
    requires IsSeries(events, start, end, Monthly, boundary) && k < |events|
    requires end - start >= 3 * MS_PER_DAY
    ensures events[k].end >= events[k].start
  {
    hide MonthOf, MonthStart, MonthLength, DateOf, FirstShort, LandsIn, LandsOn;
    OccurrenceTurnsAroundExactly(events, start, end, boundary, k);
    InstantIsMade(start);
    InstantIsMade(end);
    DayIsMade(DayOf(start));
    DayIsMade(DayOf(end));
    ThreeDaysApart(MonthNow(start), DateOf(DayOf(start)), MonthNow(end), DateOf(DayOf(end)), k);
  }

  /**
   A monthly event that runs past midnight at a month's end can come back ending before
   it starts: from the last day of a month into the first of a shorter one.
   */
  lemma OvernightMonthEndTurnsAround(month: int, startTime: int, endTime: int)
    requires 0 <= startTime < MS_PER_DAY && 0 <= endTime < MS_PER_DAY
    requires MonthLength(month) >= MonthLength(month + 1) + 2
    ensures var start := AtTime(MakeDay(month, MonthLength(month)), startTime);
            var end := AtTime(MakeDay(month + 1, 1), endTime);
            start < end && Step(end, Monthly) < Step(start, Monthly)
  {
    hide MonthOf, MonthStart, MonthLength;
    var start := AtTime(MakeDay(month, MonthLength(month)), startTime);
    var end := AtTime(MakeDay(month + 1, 1), endTime);
    MonthStep(month);
    AtTimeReadsBack(MakeDay(month, MonthLength(month)), startTime);
    AtTimeReadsBack(MakeDay(month + 1, 1), endTime);
    MakeDayReadsBack(month, MonthLength(month));
    MakeDayReadsBack(month + 1, 1);
    DueDates.MonthStepAddsMonthLength(start);
    DueDates.MonthStepAddsMonthLength(end);
  }
}
