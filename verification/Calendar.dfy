/**
  The proleptic Gregorian day count behind Python's datetime and calendar
  modules: ordinals to dates and back, day 1 being 0001-01-01.
 */
module Calendar {
  datatype Date = Date(year: int, month: int, day: int)

  predicate IsLeap(y: int) { y % 4 == 0 && (y % 100 != 0 || y % 400 == 0) }

  function DaysInMonth(y: int, m: int): (r: int)
    requires 1 <= m <= 12
    ensures 28 <= r <= 31
  {
    if m == 2 then if IsLeap(y) then 29 else 28
    else if m == 4 || m == 6 || m == 9 || m == 11 then 30
    else 31
  }

  function DaysInYear(y: int): int { if IsLeap(y) then 366 else 365 }

  /** Days before the first of January. */
  function DaysBeforeYear(y: int): int {
    365 * (y - 1) + (y - 1) / 4 - (y - 1) / 100 + (y - 1) / 400
  }

  function DaysBeforeMonth(y: int, m: int): (r: int)
    requires 1 <= m <= 13
    ensures 28 * (m - 1) <= r <= 31 * (m - 1)
    decreases m
  {
    if m == 1 then 0 else DaysBeforeMonth(y, m - 1) + DaysInMonth(y, m - 1)
  }

  predicate Valid(d: Date) { 1 <= d.month <= 12 && 1 <= d.day <= DaysInMonth(d.year, d.month) }

  function Ordinal(d: Date): int
    requires Valid(d)
  {
    DaysBeforeYear(d.year) + DaysBeforeMonth(d.year, d.month) + d.day
  }

  // ----- from an ordinal to its date

  /** The year that day `n` falls in, by 400-, 100-, 4- and 1-year cycles. */
  function YearOf(n: int): int {
    var days := n - 1;
    var (n400, r400) := (days / 146097, days % 146097);
    var (n100, r100) := (r400 / 36524, r400 % 36524);
    var (n4, r4) := (r100 / 1461, r100 % 1461);
    var n1 := r4 / 365;
    var year := 400 * n400 + 100 * n100 + 4 * n4 + n1 + 1;
    if n1 == 4 || n100 == 4 then year - 1 else year
  }

  /** The date `left` days after the first of `month`. */
  function MonthFrom(y: int, month: int, left: int): Date
    requires 1 <= month <= 12 && 0 <= left
    decreases 12 - month
  {
    if month == 12 || left < DaysInMonth(y, month) then Date(y, month, left + 1)
    else MonthFrom(y, month + 1, left - DaysInMonth(y, month))
  }

  function DateOf(n: int): Date {
    YearContains(n);
    MonthFrom(YearOf(n), 1, n - 1 - DaysBeforeYear(YearOf(n)))
  }

  // ----- years

  lemma FourthYear(y: int)
    ensures y / 4 == (y - 1) / 4 + if y % 4 == 0 then 1 else 0
  {
  }

  lemma Century(y: int)
    ensures y / 100 == (y - 1) / 100 + if y % 100 == 0 then 1 else 0
    ensures y % 100 == 0 ==> y % 4 == 0
  {
  }

  lemma FourthCentury(y: int)
    ensures y / 400 == (y - 1) / 400 + if y % 400 == 0 then 1 else 0
    ensures y % 400 == 0 ==> y % 100 == 0
  {
  }

  lemma LeapStep(y: int)
    ensures DaysBeforeYear(y + 1) == DaysBeforeYear(y) + DaysInYear(y)
  {
    FourthYear(y);
    Century(y);
    FourthCentury(y);
  }

  lemma CyclesBefore(a: int, b: int, c: int, d: int)
    requires 0 <= b <= 3 && 0 <= c <= 24 && 0 <= d <= 3
    ensures DaysBeforeYear(400 * a + 100 * b + 4 * c + d + 1) == 146097 * a + 36524 * b + 1461 * c + 365 * d
  {
    var z := 400 * a + 100 * b + 4 * c + d;
    assert z / 4 == 100 * a + 25 * b + c;
    assert z / 100 == 4 * a + b;
    assert z / 400 == a;
  }

  /** The cycles of an ordinal: the last day of a longer cycle has a full count of the shorter ones. */
  lemma CyclesOf(n: int) returns (a: int, b: int, c: int, d: int, r: int)
    ensures n - 1 == 146097 * a + 36524 * b + 1461 * c + 365 * d + r
    ensures 0 <= b <= 4 && 0 <= c <= 24 && 0 <= d <= 4 && 0 <= r < 365
    ensures (b == 4 ==> c == d == r == 0) && (d == 4 ==> r == 0) && (c == 24 && b <= 3 ==> d <= 3)
    ensures YearOf(n) == 400 * a + 100 * b + 4 * c + d + if d == 4 || b == 4 then 0 else 1
  {
    var days := n - 1;
    a := days / 146097;
    var r400 := days % 146097;
    b := r400 / 36524;
    var r100 := r400 % 36524;
    c := r100 / 1461;
    var r4 := r100 % 1461;
    d := r4 / 365;
    r := r4 % 365;
    assert days == 146097 * a + r400;
    assert r400 == 36524 * b + r100;
    assert r100 == 1461 * c + r4;
    assert r4 == 365 * d + r;
  }

  /** Day `n` lies in the year computed for it. */
  lemma YearContains(n: int)
    ensures DaysBeforeYear(YearOf(n)) < n <= DaysBeforeYear(YearOf(n) + 1)
  {
    hide YearOf, DaysBeforeYear;
    var a, b, c, d, r := CyclesOf(n);
    if b == 4 {
      CyclesBefore(a, 3, 24, 3);
      CyclesBefore(a + 1, 0, 0, 0);
    } else if d == 4 {
      CyclesBefore(a, b, c, 3);
      NextFour(a, b, c);
    } else {
      CyclesBefore(a, b, c, d);
      LeapStep(400 * a + 100 * b + 4 * c + d + 1);
    }
  }

  /** The year after four begins a new cycle of four, a day short at the end of most centuries. */
  lemma NextFour(a: int, b: int, c: int)
    requires 0 <= b <= 3 && 0 <= c <= 24
    ensures DaysBeforeYear(400 * a + 100 * b + 4 * c + 5) ==
      146097 * a + 36524 * b + 1461 * c + 1461 - (if c == 24 && b < 3 then 1 else 0)
  {
    hide DaysBeforeYear;
    if c < 24 {
      CyclesBefore(a, b, c + 1, 0);
    } else if b < 3 {
      CyclesBefore(a, b + 1, 0, 0);
    } else {
      CyclesBefore(a + 1, 0, 0, 0);
    }
  }

  lemma {:induction false} YearsAscend(y: int, z: int)
    requires y <= z
    ensures DaysBeforeYear(y) + 365 * (z - y) <= DaysBeforeYear(z)
    decreases z - y
  {
    if y < z {
      LeapStep(z - 1);
      YearsAscend(y, z - 1);
    }
  }

  /** No other year contains day `n`. */
  lemma YearUnique(n: int, y: int)
    requires DaysBeforeYear(y) < n <= DaysBeforeYear(y + 1)
    ensures YearOf(n) == y
  {
    hide YearOf, DaysBeforeYear;
    YearContains(n);
    if YearOf(n) < y {
      YearsAscend(YearOf(n) + 1, y);
    } else if y < YearOf(n) {
      YearsAscend(y + 1, YearOf(n));
    }
  }

  // ----- months

  lemma YearTotal(y: int)
    ensures DaysBeforeMonth(y, 13) == DaysInYear(y)
  {
    assert DaysBeforeMonth(y, 4) == 90 + if IsLeap(y) then 1 else 0;
    assert DaysBeforeMonth(y, 7) == DaysBeforeMonth(y, 4) + 91;
    assert DaysBeforeMonth(y, 10) == DaysBeforeMonth(y, 7) + 92;
    assert DaysBeforeMonth(y, 13) == DaysBeforeMonth(y, 10) + 92;
  }

  lemma MonthStep(y: int, m: int, left: int)
    requires 1 <= m <= 12 && 0 <= left
    ensures DaysBeforeMonth(y, m + 1) == DaysBeforeMonth(y, m) + DaysInMonth(y, m)
    ensures MonthFrom(y, m, left) == if m == 12 || left < DaysInMonth(y, m) then Date(y, m, left + 1)
      else MonthFrom(y, m + 1, left - DaysInMonth(y, m))
  {
  }

  /** Walking the months from day `left` of the year gives the date it falls on. */
  lemma {:induction false} MonthRight(y: int, month: int, left: int)
    requires 1 <= month <= 12 && 0 <= left && DaysBeforeMonth(y, month) + left < DaysInYear(y)
    ensures var d := MonthFrom(y, month, left);
      Valid(d) && d.year == y && DaysBeforeMonth(y, d.month) + d.day == DaysBeforeMonth(y, month) + left + 1
    decreases 12 - month
  {
    hide DaysBeforeYear, IsLeap, DaysInYear, DaysInMonth, DaysBeforeMonth, MonthFrom;
    YearTotal(y);
    MonthStep(y, month, left);
    if month < 12 && left >= DaysInMonth(y, month) {
      MonthRight(y, month + 1, left - DaysInMonth(y, month));
    }
  }

  lemma {:induction false} MonthsAscend(y: int, m: int, k: int)
    requires 1 <= m <= k <= 13
    ensures DaysBeforeMonth(y, m) <= DaysBeforeMonth(y, k)
    ensures m < k ==> DaysBeforeMonth(y, m) + DaysInMonth(y, m) <= DaysBeforeMonth(y, k)
    decreases k - m
  {
    if m < k {
      MonthsAscend(y, m, k - 1);
    }
  }

  /** An ordinal comes from one date only. */
  lemma OrdinalInjective(d: Date, e: Date)
    requires Valid(d) && Valid(e) && d.year == e.year && Ordinal(d) == Ordinal(e)
    ensures d == e
  {
    if d.month < e.month {
      MonthsAscend(d.year, d.month, e.month);
    } else if e.month < d.month {
      MonthsAscend(d.year, e.month, d.month);
    }
  }

  lemma InItsYear(d: Date)
    requires Valid(d)
    ensures DaysBeforeYear(d.year) < Ordinal(d) <= DaysBeforeYear(d.year + 1)
  {
    hide DaysBeforeYear, DaysBeforeMonth, DaysInMonth, IsLeap;
    MonthsAscend(d.year, d.month, 13);
    YearTotal(d.year);
    LeapStep(d.year);
  }

  /** Day count and date, one way. */
  lemma OrdinalOfDate(n: int)
    ensures Valid(DateOf(n)) && Ordinal(DateOf(n)) == n && DateOf(n).year == YearOf(n)
  {
    hide YearOf, DaysBeforeYear, MonthFrom, IsLeap;
    YearContains(n);
    LeapStep(YearOf(n));
    MonthRight(YearOf(n), 1, n - 1 - DaysBeforeYear(YearOf(n)));
  }

  /** And the other. */
  lemma DateOfOrdinal(d: Date)
    requires Valid(d)
    ensures DateOf(Ordinal(d)) == d
  {
    hide DaysBeforeYear, DaysBeforeMonth, DateOf, YearOf;
    InItsYear(d);
    YearUnique(Ordinal(d), d.year);
    OrdinalOfDate(Ordinal(d));
    OrdinalInjective(DateOf(Ordinal(d)), d);
  }

  /** After how many days of a year its months begin: from March on one more in a leap year. */
  lemma MonthsBegin(y: int)
    ensures DaysBeforeMonth(y, 1) == 0 && DaysBeforeMonth(y, 2) == 31
    ensures var leap := if y % 400 == 0 || (y % 4 == 0 && y % 100 != 0) then 1 else 0;
      && DaysBeforeMonth(y, 3) == 59 + leap && DaysBeforeMonth(y, 4) == 90 + leap && DaysBeforeMonth(y, 5) == 120 + leap
      && DaysBeforeMonth(y, 6) == 151 + leap && DaysBeforeMonth(y, 7) == 181 + leap && DaysBeforeMonth(y, 8) == 212 + leap
      && DaysBeforeMonth(y, 9) == 243 + leap && DaysBeforeMonth(y, 10) == 273 + leap
      && DaysBeforeMonth(y, 11) == 304 + leap && DaysBeforeMonth(y, 12) == 334 + leap
  {
  }
}
