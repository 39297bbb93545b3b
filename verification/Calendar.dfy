/** `days_from_civil` and `parse_rfc3339_utc` against a plain count of days. */
module Calendar {
  import opened Common

  // ----- the reference: counting days on the proleptic Gregorian calendar

  predicate IsLeap(year: nat) {
    year % 4 == 0 && (year % 100 != 0 || year % 400 == 0)
  }

  function DaysInYear(year: nat): nat {
    if IsLeap(year) then 366 else 365
  }

  function DaysInMonth(year: nat, month: nat): nat {
    if month == 2 then (if IsLeap(year) then 29 else 28)
    else if month == 4 || month == 6 || month == 9 || month == 11 then 30
    else 31
  }

  datatype Date = Date(year: nat, month: nat, day: nat)

  predicate IsDate(d: Date) {
    d.year >= 1970 && 1 <= d.month <= 12 && 1 <= d.day <= DaysInMonth(d.year, d.month)
  }

  const EPOCH: Date := Date(1970, 1, 1)

  function DaysBeforeYear(year: nat): nat
    requires year >= 1970
  {
    if year == 1970 then 0 else DaysBeforeYear(year - 1) + DaysInYear(year - 1)
  }

  function DaysBeforeMonth(year: nat, month: nat): nat
    requires month >= 1
  {
    if month == 1 then 0 else DaysBeforeMonth(year, month - 1) + DaysInMonth(year, month - 1)
  }

  /** The number of days from 1970-01-01 to the date. */
  function DayCount(d: Date): nat
    requires IsDate(d)
  {
    DaysBeforeYear(d.year) + DaysBeforeMonth(d.year, d.month) + (d.day - 1)
  }

  /** The next day of the calendar. */
  function NextDay(d: Date): Date {
    if d.day < DaysInMonth(d.year, d.month) then d.(day := d.day + 1)
    else if d.month < 12 then Date(d.year, d.month + 1, 1)
    else Date(d.year + 1, 1, 1)
  }

  /** The date `n` days after the epoch, one day at a time. */
  function DateAfter(n: nat): Date {
    if n == 0 then EPOCH else NextDay(DateAfter(n - 1))
  }

  // ----- the code

  /** The closed formula, for years that start in March. */
  function CivilFormula(year: nat, month: nat, day: nat): int
    requires year >= 1 && 1 <= month && day >= 1
  {
    var y := if month <= 2 then year - 1 else year;
    var era := y / 400;
    var yearOfEra := y - era * 400;
    var m := if month > 2 then month - 3 else month + 9;
    var dayOfYear := (153 * m + 2) / 5 + day - 1;
    var dayOfEra := yearOfEra * 365 + yearOfEra / 4 - yearOfEra / 100 + dayOfYear;
    era * 146_097 + (dayOfEra - 719_468)
  }

  function DaysFromCivil(year: nat, month: nat, day: nat): Option<int>
    requires 1 <= month && day >= 1
  {
    if !(1970 <= year <= 9999) then None else Some(CivilFormula(year, month, day))
  }

  // ----- the formula counts days

  lemma EraArithmetic(y: nat)
    ensures var era := y / 400; var yearOfEra := y - era * 400;
      era * 146_097 + yearOfEra * 365 + yearOfEra / 4 - yearOfEra / 100 == 365 * y + Leaps(y)
  {
    var era, r := y / 400, y % 400;
    assert y == 400 * era + r;
    assert y / 4 == 100 * era + r / 4;
    assert y / 100 == 4 * era + r / 100;
  }

  /** How many multiples of 4, 100 and 400 are reached at `y`, compared with one year before. */
  lemma MultiplesStep(y: nat)
    requires y > 0
    ensures y / 4 == (y - 1) / 4 + (if y % 4 == 0 then 1 else 0)
    ensures y / 100 == (y - 1) / 100 + (if y % 100 == 0 then 1 else 0)
    ensures y / 400 == (y - 1) / 400 + (if y % 400 == 0 then 1 else 0)
  {
  }

  lemma MultipleOf100(k: nat)
    ensures (100 * k) % 100 == 0
  {
  }

  lemma MultipleOf4(k: nat)
    ensures (4 * k) % 4 == 0
  {
  }

  lemma CenturiesNest(y: nat)
    ensures y % 400 == 0 ==> y % 100 == 0
    ensures y % 100 == 0 ==> y % 4 == 0
  {
    MultipleOf100(4 * (y / 400));
    MultipleOf4(25 * (y / 100));
  }

  /** The leap years among the first `y` years. */
  function Leaps(y: nat): int {
    y / 4 - y / 100 + y / 400
  }

  lemma LeapsStep(y: nat)
    requires y > 0
    ensures Leaps(y) == Leaps(y - 1) + (if IsLeap(y) then 1 else 0)
  {
    MultiplesStep(y);
    CenturiesNest(y);
  }

  lemma {:induction false} YearClosedForm(year: nat)
    requires year >= 1970
    ensures DaysBeforeYear(year) == 365 * (year - 1) + Leaps(year - 1) - 719_162
  {
    if year > 1970 {
      YearClosedForm(year - 1);
      LeapsStep(year - 1);
    } else {
      assert Leaps(1969) == 477;
    }
  }

  lemma MonthTable(year: nat, month: nat)
    requires 1 <= month <= 12
    ensures DaysBeforeMonth(year, month) ==
      (if month <= 2 then 31 * (month - 1)
       else (153 * (month - 3) + 2) / 5 + 59 + (if IsLeap(year) then 1 else 0))
  {
    if month == 1 {
    } else {
      MonthTable(year, month - 1);
    }
  }

  /** The formula without eras: `y` is the year that starts in March. */
  lemma FormulaWithoutEras(year: nat, month: nat, day: nat, y: nat, dayOfYear: nat)
    requires year >= 1 && 1 <= month <= 12 && day >= 1
    requires y == if month <= 2 then year - 1 else year
    requires dayOfYear == (153 * (if month > 2 then month - 3 else month + 9) + 2) / 5 + day - 1
    ensures CivilFormula(year, month, day) == 365 * y + Leaps(y) + dayOfYear - 719_468
  {
    EraArithmetic(y);
  }

  /** Days before a month, counted from the first of March before it. */
  lemma MonthTableFromMarch(year: nat, month: nat)
    requires 1 <= month <= 12
    ensures DaysBeforeMonth(year, month) ==
      (153 * (if month > 2 then month - 3 else month + 9) + 2) / 5
      + (if month <= 2 then -306 else if IsLeap(year) then 60 else 59)
  {
    MonthTable(year, month);
  }

  /** For every date from 1970 on, without an upper limit, the formula is the day count. */
  lemma FormulaCountsDays(d: Date)
    requires IsDate(d)
    ensures CivilFormula(d.year, d.month, d.day) == DayCount(d)
  {
    var y := if d.month <= 2 then d.year - 1 else d.year;
    var dayOfYear := (153 * (if d.month > 2 then d.month - 3 else d.month + 9) + 2) / 5 + d.day - 1;
    FormulaWithoutEras(d.year, d.month, d.day, y, dayOfYear);
    MonthTableFromMarch(d.year, d.month);
    YearClosedForm(d.year);
    if d.month > 2 {
      LeapsStep(d.year);
    }
  }

  lemma NextDayCountsOneMore(d: Date)
    requires IsDate(d)
    ensures IsDate(NextDay(d)) && DayCount(NextDay(d)) == DayCount(d) + 1
  {
    if d.month == 12 && d.day == 31 {
      MonthTable(d.year, 12);
    }
  }

  /** One more day of the calendar is one more in the formula. */
  lemma FormulaAddsOnePerDay(d: Date)
    requires IsDate(d)
    ensures IsDate(NextDay(d))
    ensures var n := NextDay(d); CivilFormula(n.year, n.month, n.day) == CivilFormula(d.year, d.month, d.day) + 1
  {
    NextDayCountsOneMore(d);
    FormulaCountsDays(d);
    FormulaCountsDays(NextDay(d));
  }

  /** Walking the calendar day by day from the epoch, the formula counts the steps. */
  lemma {:induction false} FormulaInvertsTheCalendar(n: nat)
    ensures IsDate(DateAfter(n)) && CivilFormula(DateAfter(n).year, DateAfter(n).month, DateAfter(n).day) == n
  {
    if n == 0 {
    } else {
      FormulaInvertsTheCalendar(n - 1);
      FormulaAddsOnePerDay(DateAfter(n - 1));
    }
  }

  predicate Earlier(a: Date, b: Date) {
    a.year < b.year || (a.year == b.year && (a.month < b.month || (a.month == b.month && a.day < b.day)))
  }

  lemma {:induction false} MonthsAddUp(year: nat, m: nat, n: nat)
    requires 1 <= m < n <= 13
    ensures DaysBeforeMonth(year, m) + DaysInMonth(year, m) <= DaysBeforeMonth(year, n)
  {
    if m + 1 == n {
    } else {
      MonthsAddUp(year, m, n - 1);
    }
  }

  lemma {:induction false} YearsAddUp(a: nat, b: nat)
    requires 1970 <= a < b
    ensures DaysBeforeYear(a) + DaysInYear(a) <= DaysBeforeYear(b)
  {
    if a + 1 == b {
    } else {
      YearsAddUp(a, b - 1);
    }
  }

  lemma DayIsWithinItsYear(d: Date)
    requires IsDate(d)
    ensures DaysBeforeYear(d.year) <= DayCount(d) < DaysBeforeYear(d.year) + DaysInYear(d.year)
  {
    MonthsAddUp(d.year, d.month, 13);
    MonthTable(d.year, 12);
    assert DaysBeforeMonth(d.year, 13) == DaysInYear(d.year);
  }

  /** The formula orders dates as the calendar does. */
  lemma FormulaIsStrictlyIncreasing(a: Date, b: Date)
    requires IsDate(a) && IsDate(b) && Earlier(a, b)
    ensures CivilFormula(a.year, a.month, a.day) < CivilFormula(b.year, b.month, b.day)
  {
    FormulaCountsDays(a);
    FormulaCountsDays(b);
    if a.year < b.year {
      DayIsWithinItsYear(a);
      DayIsWithinItsYear(b);
      YearsAddUp(a.year, b.year);
    } else if a.month < b.month {
      MonthsAddUp(a.year, a.month, b.month);
    }
  }

  /** Between any two dates: the formula is smaller exactly for the earlier one, and equal only for the same. */
  lemma FormulaOrdersDates(a: Date, b: Date)
    requires IsDate(a) && IsDate(b)
    ensures var m, n := CivilFormula(a.year, a.month, a.day), CivilFormula(b.year, b.month, b.day);
      && (m < n <==> Earlier(a, b))
      && (m == n <==> a == b)
  {
    if Earlier(a, b) {
      FormulaIsStrictlyIncreasing(a, b);
    } else if a != b {
      FormulaIsStrictlyIncreasing(b, a);
    }
  }
}
