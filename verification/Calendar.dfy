/**
 The proleptic Gregorian calendar of section 21.4.1 of ECMA-262, on UTC instants in
 milliseconds, and a date object whose fields are stepped the way JavaScript does.

 Months are numbered through: month `12 * year + m`, with `m` from 0 for January.
 */
module Calendar {
  const MS_PER_DAY: int := 86_400_000

  type Time = int

  function DayOf(t: Time): int {
    t / MS_PER_DAY
  }

  function TimeInDay(t: Time): int {
    t % MS_PER_DAY
  }

  function AtTime(day: int, timeInDay: int): Time {
    day * MS_PER_DAY + timeInDay
  }

  /** 0 is Sunday; day 0 was a Thursday. */
  function WeekDay(day: int): int {
    (day + 4) % 7
  }

  // ----- months

  predicate Leap(year: int) {
    year % 4 == 0 && (year % 100 != 0 || year % 400 == 0)
  }

  function MonthLength(month: int): (days: int)
    ensures 28 <= days <= 31
  {
    var m := month % 12;
    if m == 1 then (if Leap(month / 12) then 29 else 28)
    else if m == 3 || m == 5 || m == 8 || m == 10 then 30
    else 31
  }

  const EPOCH_MONTH: int := 12 * 1970

  /** The day number of the first of a month, counted month by month from January 1970. */
  function MonthStart(month: int): int
    decreases if month >= EPOCH_MONTH then month - EPOCH_MONTH else EPOCH_MONTH - month
  {
    if month == EPOCH_MONTH then 0
    else if month > EPOCH_MONTH then MonthStart(month - 1) + MonthLength(month - 1)
    else MonthStart(month + 1) - MonthLength(month)
  }

  /** Months follow each other without gap. */
  lemma MonthStep(month: int)
    ensures MonthStart(month + 1) == MonthStart(month) + MonthLength(month)
  {
    hide MonthLength;
  }

  lemma {:induction false} MonthsIncrease(a: int, b: int)
    requires a <= b
    ensures MonthStart(a) + 28 * (b - a) <= MonthStart(b) <= MonthStart(a) + 31 * (b - a)
    decreases b - a
  {
    if a < b {
      MonthsIncrease(a, b - 1);
      MonthStep(b - 1);
    }
  }

  /** Days of a year before its month `m`. */
  function DaysBefore(m: int, leap: bool): int {
    var l := if leap then 1 else 0;
    if m <= 0 then 0
    else if m == 1 then 31
    else if m == 2 then 59 + l
    else if m == 3 then 90 + l
    else if m == 4 then 120 + l
    else if m == 5 then 151 + l
    else if m == 6 then 181 + l
    else if m == 7 then 212 + l
    else if m == 8 then 243 + l
    else if m == 9 then 273 + l
    else if m == 10 then 304 + l
    else if m == 11 then 334 + l
    else 365 + l
  }

  lemma MonthOfYear(year: int, m: int)
    requires 0 <= m < 12
    ensures (12 * year + m) / 12 == year && (12 * year + m) % 12 == m
  {
  }

  lemma {:induction false} MonthInYear(year: int, m: int)
    requires 0 <= m <= 12
    ensures MonthStart(12 * year + m) == MonthStart(12 * year) + DaysBefore(m, Leap(year))
    decreases m
  {
    hide MonthStart, Leap;
    if m > 0 {
      MonthInYear(year, m - 1);
      MonthStep(12 * year + m - 1);
      MonthOfYear(year, m - 1);
    }
  }

  /** Twelve months later is 365 or 366 days later. */
  lemma TwelveMonths(month: int)
    ensures 365 <= MonthStart(month + 12) - MonthStart(month) <= 366
  {
    hide MonthStart, MonthLength, Leap;
    var year, m := month / 12, month % 12;
    MonthInYear(year, m);
    MonthInYear(year, 12);
    MonthInYear(year + 1, m);
    assert 12 * (year + 1) + m == month + 12 && 12 * year + 12 == 12 * (year + 1);
    NoTwoLeapYears(year);
  }

  lemma NoTwoLeapYears(year: int)
    ensures !(Leap(year) && Leap(year + 1))
  {
  }

  /** ECMA-262, DayFromTime of a year: the closed form of the first day of a year. */
  function DayFromYear(year: int): int {
    365 * (year - 1970) + (year - 1969) / 4 - (year - 1901) / 100 + (year - 1601) / 400
  }

  lemma Fourths(x: int)
    ensures (x + 1) / 4 == x / 4 + (if (x + 1) % 4 == 0 then 1 else 0)
  {
  }

  lemma Hundredths(x: int)
    ensures (x + 1) / 100 == x / 100 + (if (x + 1) % 100 == 0 then 1 else 0)
  {
  }

  lemma FourHundredths(x: int)
    ensures (x + 1) / 400 == x / 400 + (if (x + 1) % 400 == 0 then 1 else 0)
  {
  }

  lemma CenturyShift(year: int)
    ensures (year - 1900) % 100 == year % 100
  {
    assert year - 1900 == 100 * (year / 100 - 19) + year % 100;
  }

  lemma CycleShift(year: int)
    ensures (year - 1600) % 400 == year % 400
  {
    assert year - 1600 == 400 * (year / 400 - 4) + year % 400;
  }

  lemma CyclesAreCenturies(year: int)
    ensures year % 400 == 0 ==> year % 100 == 0
  {
    assert year == 100 * (4 * (year / 400)) + year % 400;
  }

  lemma CenturiesAreFourths(year: int)
    ensures year % 100 == 0 ==> year % 4 == 0
  {
    assert year == 4 * (25 * (year / 100)) + year % 100;
  }

  lemma DayFromYearStep(year: int)
    ensures DayFromYear(year + 1) == DayFromYear(year) + (if Leap(year) then 366 else 365)
  {
    Fourths(year - 1969);
    Hundredths(year - 1901);
    FourHundredths(year - 1601);
    CenturyShift(year);
    CycleShift(year);
    CyclesAreCenturies(year);
    CenturiesAreFourths(year);
  }

  /** The closed form of the standard is the first day of every year, counted month by month. */
  lemma {:induction false} YearsStartAsInStandard(year: int)
    ensures MonthStart(12 * year) == DayFromYear(year)
    decreases if year >= 1970 then year - 1970 else 1970 - year
  {
    hide DayFromYear, Leap;
    if year == 1970 {
      EpochIsDayZero();
    } else if year > 1970 {
      YearsStartAsInStandard(year - 1);
      MonthInYear(year - 1, 12);
      DayFromYearStep(year - 1);
    } else {
      YearsStartAsInStandard(year + 1);
      MonthInYear(year, 12);
      DayFromYearStep(year);
    }
  }

  lemma EpochIsDayZero()
    ensures MonthStart(EPOCH_MONTH) == 0 && DayFromYear(1970) == 0
  {
  }

  function FindMonth(day: int, guess: int): (month: int)
    ensures MonthStart(month) <= day < MonthStart(month + 1)
    decreases if day < MonthStart(guess) then MonthStart(guess) - day
              else if day >= MonthStart(guess + 1) then day - MonthStart(guess) else 0
  {
    MonthStep(guess - 1);
    MonthStep(guess);
    MonthStep(guess + 1);
    if day < MonthStart(guess) then FindMonth(day, guess - 1)
    else if day >= MonthStart(guess + 1) then FindMonth(day, guess + 1)
    else guess
  }

  /** The month a day lies in. */
  function MonthOf(day: int): (month: int)
    ensures MonthStart(month) <= day < MonthStart(month + 1)
  {
    FindMonth(day, EPOCH_MONTH)
  }

  lemma MonthIs(day: int, month: int)
    requires MonthStart(month) <= day < MonthStart(month + 1)
    ensures MonthOf(day) == month
  {
    hide MonthStart;
    var m := MonthOf(day);
    if m < month {
      MonthsIncrease(m + 1, month);
    } else if m > month {
      MonthsIncrease(month + 1, m);
    }
  }

  /** The day of the month, from 1. */
  function DateOf(day: int): int {
    day - MonthStart(MonthOf(day)) + 1
  }

  /** Section 21.4.1 of ECMA-262, MakeDay: days out of range carry over into other months. */
  function MakeDay(month: int, date: int): int {
    MonthStart(month) + date - 1
  }

  /** A date made from a month and a day inside that month reads back as the same month and day. */
  lemma MakeDayReadsBack(month: int, date: int)
    requires 1 <= date <= MonthLength(month)
    ensures MonthOf(MakeDay(month, date)) == month && DateOf(MakeDay(month, date)) == date
  {
    hide MonthStart, MonthLength;
    MonthStep(month);
    MonthIs(MakeDay(month, date), month);
  }

  /** Every day is made from its own month and day of the month. */
  lemma DayIsMade(day: int)
    ensures 1 <= DateOf(day) <= MonthLength(MonthOf(day))
    ensures MakeDay(MonthOf(day), DateOf(day)) == day
  {
    MonthStep(MonthOf(day));
  }

  lemma AtTimeReadsBack(day: int, timeInDay: int)
    requires 0 <= timeInDay < MS_PER_DAY
    ensures DayOf(AtTime(day, timeInDay)) == day && TimeInDay(AtTime(day, timeInDay)) == timeInDay
  {
  }

  lemma InstantIsMade(t: Time)
    ensures AtTime(DayOf(t), TimeInDay(t)) == t && 0 <= TimeInDay(t) < MS_PER_DAY
  {
  }

  /** JavaScript's `%` takes the sign of the dividend. */
  function JsRem(a: int, b: int): int
    requires b > 0
  {
    if a >= 0 then a % b else -((-a) % b)
  }

  /** A mutable date; month arguments may lie outside 0..11 and days outside the month. */
  class JsDate {
    var time: Time

    constructor (t: Time)
      ensures time == t
    {
      time := t;
    }

    function GetFullYear(): int
      reads this
    {
      MonthOf(DayOf(time)) / 12
    }

    function GetMonth(): int
      reads this
    {
      MonthOf(DayOf(time)) % 12
    }

    function GetDate(): int
      reads this
    {
      DateOf(DayOf(time))
    }

    function GetDay(): int
      reads this
    {
      WeekDay(DayOf(time))
    }

    method SetDate(date: int)
      modifies this
      ensures time == AtTime(MakeDay(MonthOf(DayOf(old(time))), date), TimeInDay(old(time)))
    {
      time := AtTime(MakeDay(12 * GetFullYear() + GetMonth(), date), TimeInDay(time));
    }

    method SetMonth(month: int)
      modifies this
      ensures time == AtTime(MakeDay(12 * old(GetFullYear()) + month, old(GetDate())), TimeInDay(old(time)))
    {
      time := AtTime(MakeDay(12 * GetFullYear() + month, GetDate()), TimeInDay(time));
    }
  }
}
