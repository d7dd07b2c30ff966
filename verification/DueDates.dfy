/**
 When the next contribution is due: stepping a date by a frequency, which overflows
 short months, and stepping to the configured payment day, which clamps to them.
 */
module DueDates {
  import opened Wrappers
  import opened Calendar

  datatype Frequency = Daily | Weekly | Quarterly | Monthly | Unknown

  function LowerChar(c: char): char {
    if 'A' <= c <= 'Z' then ((c as int) + 32) as char else c
  }

  function Lower(s: string): string {
    seq(|s|, i requires 0 <= i < |s| => LowerChar(s[i]))
  }

  /** `(frequency || 'Monthly').toLowerCase()`, read as one of the known frequencies. */
  function ReadFrequency(text: Option<string>): Frequency {
    var s := if text.None? || text.value == "" then "monthly" else Lower(text.value);
    if s == "daily" then Daily
    else if s == "weekly" then Weekly
    else if s == "quarterly" then Quarterly
    else if s == "monthly" then Monthly
    else Unknown
  }

  /** The same text as one in small letters, but for ASCII capitals. */
  predicate SameText(s: string, small: string) {
    && |s| == |small|
    && forall i :: 0 <= i < |s| ==>
         s[i] == small[i] || ('a' <= small[i] <= 'z' && s[i] as int + 32 == small[i] as int)
  }

  predicate NoCapitals(s: string) {
    forall i :: 0 <= i < |s| ==> !('A' <= s[i] <= 'Z')
  }

  lemma LowerIsSameText(s: string, small: string)
    requires NoCapitals(small)
    ensures Lower(s) == small <==> SameText(s, small)
  {
    if Lower(s) == small {
      forall i | 0 <= i < |s|
        ensures s[i] == small[i] || ('a' <= small[i] <= 'z' && s[i] as int + 32 == small[i] as int)
      {
        assert Lower(s)[i] == small[i];
      }
    }
    if SameText(s, small) {
      assert forall i :: 0 <= i < |s| ==> LowerChar(s[i]) == small[i];
    }
  }

  /** The frequency words count in any case; no text and the empty text are a month. */
  lemma FrequencyRead(text: Option<string>)
    ensures ReadFrequency(text) == Daily <==> text.Some? && SameText(text.value, "daily")
    ensures ReadFrequency(text) == Weekly <==> text.Some? && SameText(text.value, "weekly")
    ensures ReadFrequency(text) == Quarterly <==> text.Some? && SameText(text.value, "quarterly")
    ensures ReadFrequency(text) == Monthly <==>
            text.None? || text.value == "" || SameText(text.value, "monthly")
  {
    hide Lower, SameText;
    if text.Some? && text.value != "" {
      LowerIsSameText(text.value, "daily");
      LowerIsSameText(text.value, "weekly");
      LowerIsSameText(text.value, "quarterly");
      LowerIsSameText(text.value, "monthly");
    } else {
      EmptyIsNoText();
    }
  }

  lemma EmptyIsNoText()
    ensures !SameText("", "daily") && !SameText("", "weekly") && !SameText("", "quarterly")
  {
  }

  function Min(a: int, b: int): int {
    if a <= b then a else b
  }

  // ----- stepping by a frequency

  /** Section 21.4.4 of ECMA-262, setMonth: same day of the month and time of day, `k` months on. */
  function PlusMonths(t: Time, k: int): Time {
    AtTime(MakeDay(MonthOf(DayOf(t)) + k, DateOf(DayOf(t))), TimeInDay(t))
  }

  function PlusDays(t: Time, k: int): Time {
    t + k * MS_PER_DAY
  }

  function AddFrequency(t: Time, f: Frequency): Time {
    match f
    case Daily => PlusDays(t, 1)
    case Weekly => PlusDays(t, 7)
    case Quarterly => PlusMonths(t, 3)
    case _ => PlusMonths(t, 1)
  }

  lemma PlusDaysMoves(t: Time, k: int)
    ensures DayOf(PlusDays(t, k)) == DayOf(t) + k && TimeInDay(PlusDays(t, k)) == TimeInDay(t)
  {
  }

  /** The date is stepped in place, as the service does with a copied date object. */
  method StepFrequency(date: Time, frequency: Option<string>) returns (r: Time)
    ensures r == AddFrequency(date, ReadFrequency(frequency))
  {
    hide MonthOf, DateOf, MonthStart, WeekDay;
    var result := new JsDate(date);
    InstantIsMade(date);
    DayIsMade(DayOf(date));
    match ReadFrequency(frequency) {
      case Daily => result.SetDate(result.GetDate() + 1);
      case Weekly => result.SetDate(result.GetDate() + 7);
      case Quarterly => result.SetMonth(result.GetMonth() + 3);
      case _ => result.SetMonth(result.GetMonth() + 1);
    }
    r := result.time;
  }

  // ----- stepping to the payment day

  /** The payment day of a month, at the given time of day. */
  function PayDay(month: int, paymentDay: int, timeInDay: int): Time {
    AtTime(MakeDay(month, Min(paymentDay, MonthLength(month))), timeInDay)
  }

  function DaysToWeekDay(t: Time, paymentDay: int): int {
    var diff := JsRem(paymentDay - WeekDay(DayOf(t)) + 7, 7);
    if diff == 0 then 7 else diff
  }

  function MonthsAdvanced(f: Frequency): int {
    if f.Quarterly? then 3 else 1
  }

  function NextDue(t: Time, f: Frequency, paymentDay: Option<int>): Time {
    if f.Daily? || f.Unknown? || paymentDay.None? then AddFrequency(t, f)
    else if f.Weekly? then PlusDays(t, DaysToWeekDay(t, paymentDay.value))
    else
      var here := PayDay(MonthOf(DayOf(t)), paymentDay.value, TimeInDay(t));
      if here > t then here
      else PayDay(MonthOf(DayOf(here)) + MonthsAdvanced(f), paymentDay.value, TimeInDay(t))
  }

  /** `new Date(y, m + 1, 0).getDate()` is the length of the month. */
  lemma DaysInMonth(month: int)
    ensures DateOf(MakeDay(month + 1, 0)) == MonthLength(month)
  {
    MonthStep(month);
    MakeDayReadsBack(month, MonthLength(month));
  }

  method StepToPaymentDay(fromDate: Time, frequency: Option<string>, paymentDay: Option<int>) returns (r: Time)
    ensures r == NextDue(fromDate, ReadFrequency(frequency), paymentDay)
  {
    hide MonthOf, DateOf, MonthStart, MonthLength, WeekDay;
    var result := new JsDate(fromDate);
    var freq := ReadFrequency(frequency);
    InstantIsMade(fromDate);
    DayIsMade(DayOf(fromDate));
    if freq.Daily? || paymentDay.None? {
      r := StepFrequency(fromDate, frequency);
      return;
    }
    if freq.Weekly? {
      var diff := JsRem(paymentDay.value - result.GetDay() + 7, 7);
      result.SetDate(result.GetDate() + (if diff == 0 then 7 else diff));
      return result.time;
    }
    if freq.Monthly? || freq.Quarterly? {
      var advanceMonths := if freq.Quarterly? then 3 else 1;
      FirstOfMonth(fromDate);
      result.SetDate(1);
      var days := DateOf(MakeDay(12 * result.GetFullYear() + result.GetMonth() + 1, 0));
      DaysInMonth(MonthOf(DayOf(fromDate)));
      result.SetDate(Min(paymentDay.value, days));
      ghost var here := result.time;
      assert here == PayDay(MonthOf(DayOf(fromDate)), paymentDay.value, TimeInDay(fromDate));
      if result.time <= fromDate {
        InstantIsMade(here);
        FirstOfMonth(here);
        AtTimeReadsBack(MakeDay(MonthOf(DayOf(fromDate)), Min(paymentDay.value, days)), TimeInDay(fromDate));
        result.SetDate(1);
        result.SetMonth(result.GetMonth() + advanceMonths);
        FirstReadsBack(MonthOf(DayOf(here)) + advanceMonths, TimeInDay(here));
        days := DateOf(MakeDay(12 * result.GetFullYear() + result.GetMonth() + 1, 0));
        DaysInMonth(MonthOf(DayOf(here)) + advanceMonths);
        result.SetDate(Min(paymentDay.value, days));
      }
      return result.time;
    }
    r := StepFrequency(fromDate, frequency);
  }

  lemma FirstReadsBack(month: int, timeInDay: int)
    requires 0 <= timeInDay < MS_PER_DAY
    ensures var first := AtTime(MakeDay(month, 1), timeInDay);
            MonthOf(DayOf(first)) == month && DateOf(DayOf(first)) == 1 && TimeInDay(first) == timeInDay
  {
    hide MonthOf, MonthStart;
    AtTimeReadsBack(MakeDay(month, 1), timeInDay);
    MakeDayReadsBack(month, 1);
  }

  lemma FirstOfMonth(t: Time)
    ensures var first := AtTime(MakeDay(MonthOf(DayOf(t)), 1), TimeInDay(t));
            MonthOf(DayOf(first)) == MonthOf(DayOf(t)) && DateOf(DayOf(first)) == 1 && TimeInDay(first) == TimeInDay(t)
  {
    InstantIsMade(t);
    FirstReadsBack(MonthOf(DayOf(t)), TimeInDay(t));
  }

  /** The days of the week follow each other from Thursday, 1 January 1970. */
  lemma WeekDaysFollow(day: int)
    ensures WeekDay(0) == 4 && 0 <= WeekDay(day) <= 6
    ensures WeekDay(day + 1) == if WeekDay(day) == 6 then 0 else WeekDay(day) + 1
  {
    var w := WeekDay(day);
    assert day + 4 == 7 * ((day + 4) / 7) + w;
  }

  // ----- the least date on the payment day

  /** The weekly step is the first later day with the payment weekday, at the same time of day. */
  lemma WeeklyIsNextWeekDay(t: Time, paymentDay: int)
    requires 0 <= paymentDay <= 6
    ensures var due := NextDue(t, Weekly, Some(paymentDay));
            && TimeInDay(due) == TimeInDay(t)
            && WeekDay(DayOf(due)) == paymentDay
            && DayOf(t) < DayOf(due) <= DayOf(t) + 7
            && forall d :: DayOf(t) < d < DayOf(due) ==> WeekDay(d) != paymentDay
  {
    var d0 := DayOf(t);
    var k := DaysToWeekDay(t, paymentDay);
    PlusDaysMoves(t, k);
    var w := WeekDay(d0);
    assert k == if paymentDay > w then paymentDay - w else paymentDay - w + 7;
    assert d0 + 4 == 7 * ((d0 + 4) / 7) + w;
    forall d | d0 < d <= d0 + k ensures WeekDay(d) == paymentDay <==> d == d0 + k {
      WeekDayAfter(d0, d - d0);
    }
  }

  lemma WeekDayAfter(day: int, k: int)
    requires 0 <= k <= 7
    ensures WeekDay(day + k) == if WeekDay(day) + k < 7 then WeekDay(day) + k
                                else if WeekDay(day) + k < 14 then WeekDay(day) + k - 7
                                else WeekDay(day) + k - 14
  {
    assert day + 4 == 7 * ((day + 4) / 7) + WeekDay(day);
  }

  /** The day is the payment day of its month, or the last day of a month too short for it. */
  predicate OnPayDay(t: Time, paymentDay: int) {
    DateOf(DayOf(t)) == Min(paymentDay, MonthLength(MonthOf(DayOf(t))))
  }

  lemma PayDayIsOnPayDay(month: int, paymentDay: int, timeInDay: int)
    requires paymentDay >= 1 && 0 <= timeInDay < MS_PER_DAY
    ensures var p := PayDay(month, paymentDay, timeInDay);
            MonthOf(DayOf(p)) == month && OnPayDay(p, paymentDay) && TimeInDay(p) == timeInDay
  {
    hide MonthOf, MonthStart, MonthLength;
    var date := Min(paymentDay, MonthLength(month));
    AtTimeReadsBack(MakeDay(month, date), timeInDay);
    MakeDayReadsBack(month, date);
  }

  lemma OnPayDayIsPayDay(t: Time, paymentDay: int)
    requires OnPayDay(t, paymentDay)
    ensures t == PayDay(MonthOf(DayOf(t)), paymentDay, TimeInDay(t))
  {
    hide MonthOf, MonthStart, MonthLength;
    InstantIsMade(t);
    DayIsMade(DayOf(t));
  }

  /** Payment days of later months come later. */
  lemma PayDaysIncrease(a: int, b: int, paymentDay: int, timeInDay: int)
    requires a < b && paymentDay >= 1
    ensures PayDay(a, paymentDay, timeInDay) < PayDay(b, paymentDay, timeInDay)
  {
    hide MonthStart, MonthLength;
    MonthStep(a);
    MonthsIncrease(a + 1, b);
  }

  /** An instant lies before the payment day of every later month and after that of every earlier one. */
  lemma PayDayOfOtherMonth(t: Time, month: int, paymentDay: int)
    requires paymentDay >= 1
    ensures month > MonthOf(DayOf(t)) ==> PayDay(month, paymentDay, TimeInDay(t)) > t
    ensures month < MonthOf(DayOf(t)) ==> PayDay(month, paymentDay, TimeInDay(t)) < t
  {
    hide MonthStart, MonthLength, MonthOf;
    var m := MonthOf(DayOf(t));
    DayIsMade(DayOf(t));
    InstantIsMade(t);
    if month > m {
      MonthsIncrease(m + 1, month);
      MonthStep(m);
    } else if month < m {
      MonthsIncrease(month + 1, m);
      MonthStep(month);
    }
  }

  /**
   The monthly step is the least later instant, at the same time of day, that falls on
   the payment day of its month.
   */
  lemma MonthlyIsNextPayDay(t: Time, paymentDay: int, u: Time)
    requires paymentDay >= 1
    ensures var due := NextDue(t, Monthly, Some(paymentDay));
            && due > t && OnPayDay(due, paymentDay) && TimeInDay(due) == TimeInDay(t)
            && (u > t && OnPayDay(u, paymentDay) && TimeInDay(u) == TimeInDay(t) ==> due <= u)
  {
    hide MonthStart, MonthLength, MonthOf, DateOf, OnPayDay;
    InstantIsMade(t);
    var m, tid := MonthOf(DayOf(t)), TimeInDay(t);
    PayDayIsOnPayDay(m, paymentDay, tid);
    PayDayIsOnPayDay(m + 1, paymentDay, tid);
    PayDayOfOtherMonth(t, m + 1, paymentDay);
    if u > t && OnPayDay(u, paymentDay) && TimeInDay(u) == tid {
      OnPayDayIsPayDay(u, paymentDay);
      var mu := MonthOf(DayOf(u));
      PayDayOfOtherMonth(t, mu, paymentDay);
      if mu > m { PayDaysIncrease(m, mu, paymentDay, tid); }
      if mu > m + 1 { PayDaysIncrease(m + 1, mu, paymentDay, tid); }
    }
  }

  /** With a payment day of zero or less the monthly step never moves forward; with one or more it always does. */
  lemma MonthlyProgressExactly(t: Time, paymentDay: int)
    ensures NextDue(t, Monthly, Some(paymentDay)) > t <==> paymentDay >= 1
  {
    hide MonthStart, MonthLength, MonthOf, DateOf;
    InstantIsMade(t);
    DayIsMade(DayOf(t));
    if paymentDay >= 1 {
      MonthlyIsNextPayDay(t, paymentDay, t);
    } else {
      var m, tid := MonthOf(DayOf(t)), TimeInDay(t);
      var here := PayDay(m, paymentDay, tid);
      AtTimeReadsBack(MakeDay(m, paymentDay), tid);
      var m' := MonthOf(DayOf(here));
      EarlierDayEarlierMonth(MakeDay(m, paymentDay), m);
      MonthsIncrease(m' + 1, m);
    }
  }

  lemma EarlierDayEarlierMonth(day: int, month: int)
    requires day < MonthStart(month)
    ensures MonthOf(day) < month
  {
    hide MonthStart;
    if MonthOf(day) >= month {
      MonthsIncrease(month, MonthOf(day));
    }
  }

  /** A quarterly step is the payment day of this month if it is still ahead, else of the month three on. */
  lemma QuarterlyStep(t: Time, paymentDay: int)
    requires paymentDay >= 1
    ensures var due := NextDue(t, Quarterly, Some(paymentDay));
            && due > t && OnPayDay(due, paymentDay) && TimeInDay(due) == TimeInDay(t)
            && (MonthOf(DayOf(due)) == MonthOf(DayOf(t)) || MonthOf(DayOf(due)) == MonthOf(DayOf(t)) + 3)
            && (MonthOf(DayOf(due)) == MonthOf(DayOf(t)) <==>
                  DateOf(DayOf(t)) < Min(paymentDay, MonthLength(MonthOf(DayOf(t)))))
  {
    hide MonthStart, MonthLength, MonthOf;
    InstantIsMade(t);
    DayIsMade(DayOf(t));
    var m, tid := MonthOf(DayOf(t)), TimeInDay(t);
    PayDayIsOnPayDay(m, paymentDay, tid);
    PayDayIsOnPayDay(m + 3, paymentDay, tid);
    PayDayOfOtherMonth(t, m + 3, paymentDay);
  }

  // ----- no drift

  function Iterate(t: Time, f: Frequency, paymentDay: int, n: nat): Time {
    if n == 0 then t else NextDue(Iterate(t, f, paymentDay, n - 1), f, Some(paymentDay))
  }

  /** From a payment day, `n` steps land exactly `n` (or `3n`) months later on the clamped payment day. */
  lemma {:induction false} PaymentDaysNeverDrift(t: Time, f: Frequency, paymentDay: int, n: nat)
    requires f.Monthly? || f.Quarterly?
    requires paymentDay >= 1 && OnPayDay(t, paymentDay)
    ensures var due := Iterate(t, f, paymentDay, n);
            && due == PayDay(MonthOf(DayOf(t)) + n * MonthsAdvanced(f), paymentDay, TimeInDay(t))
            && OnPayDay(due, paymentDay)
            && MonthOf(DayOf(due)) == MonthOf(DayOf(t)) + n * MonthsAdvanced(f)
  {
    hide MonthStart, MonthLength, MonthOf, DateOf, OnPayDay, PayDay;
    InstantIsMade(t);
    OnPayDayIsPayDay(t, paymentDay);
    var m, step := MonthOf(DayOf(t)), MonthsAdvanced(f);
    PayDayIsOnPayDay(m + n * step, paymentDay, TimeInDay(t));
    if n > 0 {
      PaymentDaysNeverDrift(t, f, paymentDay, n - 1);
      var before := Iterate(t, f, paymentDay, n - 1);
      PayDayIsOnPayDay(m + (n - 1) * step, paymentDay, TimeInDay(t));
      assert m + (n - 1) * step + step == m + n * step;
    }
  }

  // ----- overflow

  /** A calendar month step adds exactly the length of the month it starts in. */
  lemma MonthStepAddsMonthLength(t: Time)
    ensures AddFrequency(t, Monthly) == PlusDays(t, MonthLength(MonthOf(DayOf(t))))
    ensures AddFrequency(t, Monthly) > t
  {
    hide MonthLength, MonthOf;
    MonthStep(MonthOf(DayOf(t)));
    DayIsMade(DayOf(t));
    InstantIsMade(t);
  }

  /** Every frequency steps forward. */
  lemma FrequencyStepsForward(t: Time, f: Frequency)
    ensures AddFrequency(t, f) > t
  {
    hide MonthOf, MonthStart, MonthLength;
    InstantIsMade(t);
    DayIsMade(DayOf(t));
    var m := MonthOf(DayOf(t));
    MonthsIncrease(m, m + 1);
    MonthsIncrease(m, m + 3);
  }

  /**
   Stepping some months on keeps day of the month and time of day if the month reached has
   such a day; otherwise it ends in the month after, on the day left over.
   */
  ghost predicate StepsMonths(t: Time, due: Time, k: int) {
    var m, d := MonthOf(DayOf(t)) + k, DateOf(DayOf(t));
    && TimeInDay(due) == TimeInDay(t)
    && (d <= MonthLength(m) ==> MonthOf(DayOf(due)) == m && DateOf(DayOf(due)) == d)
    && (d > MonthLength(m) ==> MonthOf(DayOf(due)) == m + 1 && DateOf(DayOf(due)) == d - MonthLength(m) <= 3)
  }

  lemma PlusMonthsSteps(t: Time, k: int)
    ensures StepsMonths(t, PlusMonths(t, k), k)
  {
    hide MonthLength, MonthOf, MonthStart;
    var m, d := MonthOf(DayOf(t)) + k, DateOf(DayOf(t));
    InstantIsMade(t);
    DayIsMade(DayOf(t));
    AtTimeReadsBack(MakeDay(m, d), TimeInDay(t));
    if d <= MonthLength(m) {
      MakeDayReadsBack(m, d);
    } else {
      MonthStep(m);
      assert MakeDay(m, d) == MakeDay(m + 1, d - MonthLength(m));
      MakeDayReadsBack(m + 1, d - MonthLength(m));
    }
  }

  /** What one step of a configured frequency comes to, from its text. */
  lemma FrequencySteps(t: Time, text: Option<string>)
    ensures var due := AddFrequency(t, ReadFrequency(text));
            if text.Some? && SameText(text.value, "daily") then due == t + 86_400_000
            else if text.Some? && SameText(text.value, "weekly") then due == t + 604_800_000
            else if text.Some? && SameText(text.value, "quarterly") then StepsMonths(t, due, 3)
            else StepsMonths(t, due, 1)
  {
    hide ReadFrequency, SameText, PlusMonths;
    FrequencyRead(text);
    PlusMonthsSteps(t, 1);
    PlusMonthsSteps(t, 3);
  }

  /** A month step keeps the day exactly when the next month is long enough; otherwise it skips that month. */
  lemma MonthStepOverflowsExactly(t: Time)
    ensures var m, d := MonthOf(DayOf(t)), DateOf(DayOf(t));
            var due := AddFrequency(t, Monthly);
            && TimeInDay(due) == TimeInDay(t)
            && (d <= MonthLength(m + 1) ==> MonthOf(DayOf(due)) == m + 1 && DateOf(DayOf(due)) == d)
            && (d > MonthLength(m + 1) ==>
                  MonthOf(DayOf(due)) == m + 2 && DateOf(DayOf(due)) == d - MonthLength(m + 1) <= 3)
  {
    hide MonthLength, MonthOf, MonthStart, DateOf, PlusMonths;
    PlusMonthsSteps(t, 1);
  }

  function IterateFrequency(t: Time, f: Frequency, n: nat): Time {
    if n == 0 then t else AddFrequency(IterateFrequency(t, f, n - 1), f)
  }

  /**
   `n` monthly (or quarterly) steps end `n` (or `3n`) months later on the same day exactly when
   no month stepped on is too short for it.
   */
  lemma {:induction false} MonthStepsDriftExactly(t: Time, f: Frequency, n: nat)
    requires f.Monthly? || f.Quarterly?
    ensures var m, d, step := MonthOf(DayOf(t)), DateOf(DayOf(t)), MonthsAdvanced(f);
            var due := IterateFrequency(t, f, n);
            && TimeInDay(due) == TimeInDay(t)
            && MonthOf(DayOf(due)) >= m + n * step
            && (MonthOf(DayOf(due)) == m + n * step <==> forall k :: 0 < k <= n ==> d <= MonthLength(m + k * step))
            && (MonthOf(DayOf(due)) == m + n * step ==> DateOf(DayOf(due)) == d)
  {
    hide MonthLength, MonthOf, MonthStart, DateOf, PlusMonths;
    var m, d, step := MonthOf(DayOf(t)), DateOf(DayOf(t)), MonthsAdvanced(f);
    if n > 0 {
      MonthStepsDriftExactly(t, f, n - 1);
      PlusMonthsSteps(IterateFrequency(t, f, n - 1), step);
      assert m + (n - 1) * step + step == m + n * step;
    }
  }

  // ----- when the payment day does not count

  /** Daily dues, unknown frequencies and dues without a payment day take the plain step. */
  lemma PaymentDayUnused(t: Time, text: Option<string>, paymentDay: Option<int>)
    requires || paymentDay.None? || (text.Some? && SameText(text.value, "daily"))
             || (text.Some? && text.value != "" && !SameText(text.value, "weekly")
                 && !SameText(text.value, "quarterly") && !SameText(text.value, "monthly"))
    ensures NextDue(t, ReadFrequency(text), paymentDay) == AddFrequency(t, ReadFrequency(text))
  {
    hide ReadFrequency, SameText, PlusMonths;
    FrequencyRead(text);
  }

  /**
   Whatever number is configured for it, the weekly step lands on that weekday modulo seven;
   it moves forward, by a week at most, unless the number lies more than a week before today's.
   */
  lemma WeeklyProgressExactly(t: Time, paymentDay: int)
    ensures var due, w := NextDue(t, Weekly, Some(paymentDay)), WeekDay(DayOf(t));
            && WeekDay(DayOf(due)) == paymentDay % 7 && TimeInDay(due) == TimeInDay(t)
            && DayOf(t) - 6 <= DayOf(due) <= DayOf(t) + 7
            && (due > t <==> paymentDay >= w - 7 || paymentDay % 7 == w)
  {
    var d0, k := DayOf(t), DaysToWeekDay(t, paymentDay);
    var w := WeekDay(d0);
    PlusDaysMoves(t, k);
    assert d0 + 4 == 7 * ((d0 + 4) / 7) + w;
    var x := paymentDay - w + 7;
    RemainderIs(x, k);
    RemainderShifts(d0 + 4, k, paymentDay, w);
    RemainderZero(x, paymentDay, w);
  }

  lemma RemainderIs(x: int, k: int)
    requires k == (if JsRem(x, 7) == 0 then 7 else JsRem(x, 7))
    ensures -6 <= k <= 7 && k != 0 && (x - k) % 7 == 0
    ensures k > 0 <==> x >= 0 || x % 7 == 0
  {
  }

  lemma RemainderShifts(a: int, k: int, p: int, w: int)
    requires w == a % 7 && (p - w + 7 - k) % 7 == 0
    ensures (a + k) % 7 == p % 7
  {
  }

  lemma RemainderZero(x: int, p: int, w: int)
    requires x == p - w + 7 && 0 <= w < 7
    ensures x % 7 == 0 <==> p % 7 == w
  {
  }
}
