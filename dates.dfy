/**
 * The part of java.time's `LocalDate` (ISO calendar) the core uses: which triples are
 * dates, `LocalDate.of`, chronological order, `minusYears`, `plusDays(1)`, and the age in
 * whole years between two dates.
 */
module Dates {
  import opened Wrappers

  /** `Year.MIN_VALUE` and `Year.MAX_VALUE`, the year range `LocalDate` accepts. */
  const MinYear: int := -999_999_999
  const MaxYear: int := 999_999_999

  datatype Date = Date(year: int, month: int, day: int)

  /** The proleptic Gregorian leap rule, as `Year.isLeap` states it. */
  predicate IsLeapYear(y: int) {
    y % 4 == 0 && (y % 100 != 0 || y % 400 == 0)
  }

  /** `Month.length(leapYear)` */
  function LengthOfMonth(y: int, m: int): (n: int)
    requires 1 <= m <= 12
    ensures 28 <= n <= 31
    ensures n == 29 <==> m == 2 && IsLeapYear(y)
    ensures n == 28 <==> m == 2 && !IsLeapYear(y)
    ensures n == 30 <==> m in {4, 6, 9, 11}
  {
    if m == 2 then (if IsLeapYear(y) then 29 else 28)
    else if m == 4 || m == 6 || m == 9 || m == 11 then 30
    else 31
  }

  /** A month-and-day that exists in year `y` of the calendar. */
  predicate IsCalendarDate(y: int, m: int, d: int) {
    1 <= m <= 12 && 1 <= d <= LengthOfMonth(y, m)
  }

  /** Every `LocalDate` value satisfies this. */
  predicate IsValid(d: Date) {
    MinYear <= d.year <= MaxYear && IsCalendarDate(d.year, d.month, d.day)
  }

  /** A `LocalDate` value. */
  type LocalDate = d: Date | IsValid(d) witness Date(1970, 1, 1)

  /**
   * `LocalDate.of(year, month, dayOfMonth)`: `None` where it throws `DateTimeException`
   * (a field out of range, or a day the month does not have).
   */
  function Of(year: int, month: int, day: int): (r: Option<LocalDate>)
    ensures r.Some? <==> IsValid(Date(year, month, day))
    ensures r.Some? ==> r.value == Date(year, month, day)
  {
    if MinYear <= year <= MaxYear && 1 <= month <= 12 && 1 <= day <= 31
       && day <= LengthOfMonth(year, month)
    then Some(Date(year, month, day))
    else None
  }

  /** Chronological order (`LocalDate.compareTo`, SQL's order on dates). */
  predicate NotAfter(a: Date, b: Date) {
    a.year < b.year || (a.year == b.year && (a.month < b.month || (a.month == b.month && a.day <= b.day)))
  }

  predicate Before(a: Date, b: Date) {
    !NotAfter(b, a)
  }

  /**
   * `minusYears(n)`: the same month and day `n` years earlier, the day clamped to the
   * length of that month (29 February becomes 28 February in a common year); `None` where
   * the year leaves the supported range (`DateTimeException`). Zero years returns the date.
   */
  function MinusYears(d: Date, n: int): (r: Option<Date>)
    requires IsValid(d)
    ensures r.Some? ==> IsValid(r.value) && r.value.year == d.year - n && r.value.month == d.month
    ensures r.Some? ==> r.value.day <= d.day
    ensures r.Some? && r.value.day < d.day ==> d.month == 2 && d.day == 29 && r.value.day == 28
    ensures r.Some? ==> (r.value.day == d.day <==> d.day <= LengthOfMonth(d.year - n, d.month))
    ensures r.None? <==> !(MinYear <= d.year - n <= MaxYear)
  {
    if n == 0 then Some(d)
    else
      var y := d.year - n;
      if MinYear <= y <= MaxYear then
        var len := LengthOfMonth(y, d.month);
        Some(Date(y, d.month, if d.day <= len then d.day else len))
      else None
  }

  /**
   * `plusDays(1)`: the next calendar day; `None` where that would be after 31 December of
   * `MaxYear` (`DateTimeException`).
   */
  function PlusOneDay(d: Date): (r: Option<Date>)
    requires IsValid(d)
    ensures r.Some? ==> IsValid(r.value) && Before(d, r.value)
    ensures r.None? <==> d == Date(MaxYear, 12, 31)
  {
    var dom := d.day + 1;
    if dom <= 28 then Some(Date(d.year, d.month, dom))
    else
      var monthLen := LengthOfMonth(d.year, d.month);
      if dom <= monthLen then Some(Date(d.year, d.month, dom))
      else if d.month < 12 then Some(Date(d.year, d.month + 1, dom - monthLen))
      else if d.year + 1 <= MaxYear then Some(Date(d.year + 1, 1, dom - monthLen))
      else None
  }

  /** The age in whole years on `today` of someone born on `birth`: birthdays passed. */
  function AgeOn(birth: Date, today: Date): int {
    today.year - birth.year
      - (if today.month < birth.month || (today.month == birth.month && today.day < birth.day) then 1 else 0)
  }

  // ---------------------------------------------------------------------------------

  /** No date lies strictly between a date and the next one. */
  lemma NextDayIsSuccessor(x: Date, b: Date)
    requires IsValid(x) && IsValid(b) && PlusOneDay(x).Some?
    ensures Before(x, b) <==> NotAfter(PlusOneDay(x).value, b)
  {
    var n := PlusOneDay(x).value;
    if x.month == 12 && x.day == 31 {
      assert n == Date(x.year + 1, 1, 1);
    } else if x.day == LengthOfMonth(x.year, x.month) {
      assert n == Date(x.year, x.month + 1, 1);
    } else {
      assert n == Date(x.year, x.month, x.day + 1);
    }
  }

  /** Someone is at least `a` years old exactly when born no later than `a` years ago. */
  lemma AgeAtLeast(birth: Date, today: Date, a: int)
    requires IsValid(birth) && IsValid(today) && MinusYears(today, a).Some?
    ensures AgeOn(birth, today) >= a <==> NotAfter(birth, MinusYears(today, a).value)
  {
    var h := MinusYears(today, a).value;
    if birth.year == h.year && birth.month == today.month {
      assert birth.day <= LengthOfMonth(h.year, h.month);
    }
  }

  /**
   * The birth-date window `getByAge` queries, `[today - (age + 1) years + 1 day,
   * today - age years]`, built as the service builds it; `None` where java.time throws.
   */
  function AgeWindow(today: Date, age: int): (r: Option<(Date, Date)>)
    requires IsValid(today)
    ensures r.Some? <==> MinYear <= today.year - age - 1 && today.year - age <= MaxYear
    ensures r.Some? ==> IsValid(r.value.0) && IsValid(r.value.1)
  {
    var before := MinusYears(today, age + 1);
    if before.None? then None
    else
      var start := PlusOneDay(before.value);
      if start.None? then None
      else
        var end := MinusYears(today, age);
        if end.None? then None
        else Some((start.value, end.value))
  }

  /** The window holds exactly the birth dates of people who are `age` years old today. */
  lemma {:induction false} AgeWindowExact(birth: Date, today: Date, age: int)
    requires IsValid(birth) && IsValid(today) && AgeWindow(today, age).Some?
    ensures var (start, end) := AgeWindow(today, age).value;
            NotAfter(start, birth) && NotAfter(birth, end) <==> AgeOn(birth, today) == age
  {
    var before := MinusYears(today, age + 1).value;
    AgeAtLeast(birth, today, age);
    AgeAtLeast(birth, today, age + 1);
    NextDayIsSuccessor(before, birth);
  }
}
