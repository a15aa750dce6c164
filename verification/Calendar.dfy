/**
 Civil dates (src/exec/compute.cc, CivilOf and DaysOf): days since 1970-01-01 and dates of the
 proleptic Gregorian calendar are each other's inverses, on all integers and all valid dates.
 */
module Calendar {
  // ---- division ----

  /** The quotient toward zero. */
  function Quotient(a: int, b: int): int
    requires b > 0
  {
    if a >= 0 then a / b else -((-a) / b)
  }

  function FloorDiv(a: int, b: int): int
    requires b > 0
  {
    Quotient(a, b) - if Quotient(a, b) * b != a && a < 0 then 1 else 0
  }

  function FloorMod(a: int, b: int): int
    requires b > 0
  {
    a - FloorDiv(a, b) * b
  }

  lemma {:induction false} OneQuotient(a: int, b: int, q: int)
    requires b > 0 && b * q <= a < b * q + b
    ensures q == a / b
  {
    var p := a / b;
    assert b * p <= a < b * p + b;
    Multiples(b, p, q);
    Multiples(b, q, p);
  }

  lemma {:induction false} Multiples(b: int, p: int, q: int)
    requires b > 0
    ensures q < p ==> b * q + b <= b * p
    decreases p - q
  {
    if q < p {
      assert b * (q + 1) == b * q + b;
      Multiples(b, p, q + 1);
    }
  }

  lemma {:induction false} Floors(a: int, b: int)
    requires b > 0
    ensures FloorDiv(a, b) == a / b && FloorMod(a, b) == a % b
  {
    var p := (if a >= 0 then a else -a) / b;
    assert b * p == p * b;
    if a < 0 {
      assert b * p <= -a < b * p + b && Quotient(a, b) == -p && (-p) * b == -(b * p);
      assert b * (-p) == -(b * p) && b * (-p - 1) == -(b * p) - b;
    }
    OneQuotient(a, b, FloorDiv(a, b));
  }

  // ---- the calendar ----

  datatype Date = Date(year: int, month: int, day: int)

  predicate Leap(year: int) {
    year % 4 == 0 && (year % 100 != 0 || year % 400 == 0)
  }

  function MonthLength(year: int, month: int): int {
    if month == 2 then (if Leap(year) then 29 else 28)
    else if month in {4, 6, 9, 11} then 30 else 31
  }

  predicate Valid(d: Date) {
    1 <= d.month <= 12 && 1 <= d.day <= MonthLength(d.year, d.month)
  }

  /** The day after. */
  function Next(d: Date): Date {
    if d.day < MonthLength(d.year, d.month) then d.(day := d.day + 1)
    else if d.month < 12 then Date(d.year, d.month + 1, 1)
    else Date(d.year + 1, 1, 1)
  }

  // ---- the engine's functions ----

  function YearOfEra(dayOfEra: int): int {
    Quotient(dayOfEra - Quotient(dayOfEra, 1460) + Quotient(dayOfEra, 36524) - Quotient(dayOfEra, 146096), 365)
  }

  /** The date of a day in a year that starts in March. */
  function FromMarch(year: int, dayOfYear: int): Date {
    var shifted := Quotient(5 * dayOfYear + 2, 153);
    var day := dayOfYear - Quotient(153 * shifted + 2, 5) + 1;
    var month := if shifted < 10 then shifted + 3 else shifted - 9;
    Date(year + (if month <= 2 then 1 else 0), month, day)
  }

  function CivilOf(days: int): Date {
    var z := days + 719468;
    var era := FloorDiv(z, 146097);
    var dayOfEra := z - era * 146097;
    var yearOfEra := YearOfEra(dayOfEra);
    var dayOfYear := dayOfEra - (365 * yearOfEra + Quotient(yearOfEra, 4) - Quotient(yearOfEra, 100));
    FromMarch(yearOfEra + era * 400, dayOfYear)
  }

  function DaysOf(year: int, month: int, day: int): int {
    var y := if month <= 2 then year - 1 else year;
    var era := FloorDiv(y, 400);
    var yearOfEra := y - era * 400;
    var dayOfYear := Quotient(153 * (if month > 2 then month - 3 else month + 9) + 2, 5) + day - 1;
    var dayOfEra := yearOfEra * 365 + Quotient(yearOfEra, 4) - Quotient(yearOfEra, 100) + dayOfYear;
    era * 146097 + dayOfEra - 719468
  }

  function Days(d: Date): int { DaysOf(d.year, d.month, d.day) }

  // ---- years from March ----

  /** The days before March 1 of a year. */
  function Before(y: int): int { 365 * y + y / 4 - y / 100 + y / 400 }

  /** The year from March that a date is in. */
  function YearOf(d: Date): int { if d.month <= 2 then d.year - 1 else d.year }

  /** The day in that year, from 0. */
  function DayIn(month: int, day: int): int {
    (153 * (if month > 2 then month - 3 else month + 9) + 2) / 5 + day - 1
  }

  function Length(y: int): int { if Leap(y + 1) then 366 else 365 }

  lemma {:induction false} DaysLinear(d: Date)
    requires Valid(d)
    ensures Days(d) == Before(YearOf(d)) + DayIn(d.month, d.day) - 719468
  {
    var y := YearOf(d);
    Floors(y, 400);
    InEra(y);
  }

  lemma {:induction false} InEra(y: int)
    ensures var era, of := y / 400, y % 400;
      Before(y) == era * 146097 + of * 365 + of / 4 - of / 100
  {
    var era, of := y / 400, y % 400;
    assert y / 4 == 100 * era + of / 4;
    assert y / 100 == 4 * era + of / 100;
  }

  lemma {:induction false} NextYear(y: int)
    ensures Before(y + 1) == Before(y) + Length(y)
  {
    NextMultiple(y, 4);
    NextMultiple(y, 100);
    NextMultiple(y, 400);
    Centuries(y + 1);
  }

  lemma {:induction false} NextMultiple(y: int, n: int)
    requires n > 1
    ensures (y + 1) / n == y / n + if (y + 1) % n == 0 then 1 else 0
  {
    var q, r := y / n, y % n;
    assert y + 1 == n * q + r + 1;
    if r + 1 == n { OneQuotient(y + 1, n, q + 1); } else { OneQuotient(y + 1, n, q); }
  }

  lemma {:induction false} Centuries(y: int)
    ensures (y % 100 == 0 ==> y % 4 == 0) && (y % 400 == 0 ==> y % 100 == 0)
  {
  }

  lemma {:induction false} YearsGrow(y: int, x: int)
    requires y < x
    ensures Before(y) + Length(y) <= Before(x)
    decreases x - y
  {
    NextYear(y);
    if y + 1 < x { YearsGrow(y + 1, x); }
  }

  lemma {:induction false} DayInYear(d: Date)
    requires Valid(d)
    ensures 0 <= DayIn(d.month, d.day) < Length(YearOf(d))
  {
  }

  // ---- a day's date ----

  /** The day of its year of era. */
  function EraDayOf(day: int): int {
    var y := YearOfEra(day);
    day - (365 * y + y / 4 - y / 100)
  }

  /** A day of era: centuries, fours of years, years and days. */
  ghost predicate Parts(day: int, c: int, q: int, a: int, s: int) {
    && day == 36524 * c + 1461 * q + 365 * a + s
    && 0 <= c <= 3 && 0 <= q <= 24 && 0 <= a <= 3 && 0 <= s <= 365
    && (s == 365 ==> a == 3 && (q == 24 ==> c == 3))
  }

  lemma {:induction false} DayParts(day: int) returns (c: int, q: int, a: int, s: int)
    requires 0 <= day < 146097
    ensures Parts(day, c, q, a, s)
  {
    c := if day == 146096 then 3 else day / 36524;
    var rest := day - 36524 * c;
    q := rest / 1461;
    var left := rest - 1461 * q;
    a := if left == 1460 then 3 else left / 365;
    s := left - 365 * a;
  }

  lemma {:induction false} DaysRemoved(day: int, c: int, q: int, a: int, s: int)
    requires Parts(day, c, q, a, s)
    ensures YearOfEra(day) == 100 * c + 4 * q + a
  {
    var late := if 24 * c + q + 365 * a + s >= 1460 then 1 else 0;
    OneQuotient(day, 1460, 25 * c + q + late);
    var last := if day == 146096 then 1 else 0;
    OneQuotient(day, 36524, c + last);
    OneQuotient(day, 146096, last);
    OneQuotient(36500 * c + 1460 * q + 365 * a + s - late, 365, 100 * c + 4 * q + a);
  }

  lemma {:induction false} YearParts(c: int, q: int, a: int)
    requires 0 <= c <= 3 && 0 <= q <= 24 && 0 <= a <= 3
    ensures var y := 100 * c + 4 * q + a;
      y / 4 == 25 * c + q && y / 100 == c && (Leap(y + 1) <==> a == 3 && (q == 24 ==> c == 3))
  {
    var y := 100 * c + 4 * q + a;
    OneQuotient(y, 4, 25 * c + q);
    OneQuotient(y, 100, c);
    NextMultiple(y, 4);
    NextMultiple(y, 100);
    NextMultiple(y, 400);
  }

  /** The year of era that a day of era is in. */
  lemma {:induction false} EraYear(day: int)
    requires 0 <= day < 146097
    ensures var y := YearOfEra(day);
      && 0 <= y < 400
      && 365 * y + y / 4 - y / 100 <= day < 365 * y + y / 4 - y / 100 + Length(y)
  {
    hide YearOfEra;
    var c, q, a, s := DayParts(day);
    DaysRemoved(day, c, q, a, s);
    YearParts(c, q, a);
  }

  lemma {:induction false} YearDate(y: int, day: int)
    requires 0 <= day < Length(y)
    ensures var d := FromMarch(y, day); Valid(d) && YearOf(d) == y && DayIn(d.month, d.day) == day
  {
  }

  lemma {:induction false} EraLength(of: int, era: int)
    ensures Length(of + era * 400) == Length(of)
  {
    var y := of + 1;
    OneQuotient(y + era * 400, 4, y / 4 + era * 100);
    OneQuotient(y + era * 400, 100, y / 100 + era * 4);
    OneQuotient(y + era * 400, 400, y / 400 + era);
  }

  lemma {:induction false} CivilShape(days: int)
    ensures var era, day := (days + 719468) / 146097, (days + 719468) % 146097;
      CivilOf(days) == FromMarch(YearOfEra(day) + era * 400, EraDayOf(day))
  {
    hide Length;
    hide YearOfEra;
    hide FromMarch;
    var z := days + 719468;
    Floors(z, 146097);
    EraYear(z % 146097);
  }

  /** Every day has a date, and the date that day. */
  lemma {:induction false} DateOfDay(days: int)
    ensures Valid(CivilOf(days)) && Days(CivilOf(days)) == days
  {
    hide CivilOf;
    hide Length;
    hide Valid;
    hide DaysOf;
    hide FromMarch;
    var z := days + 719468;
    var era, dayOfEra := z / 146097, z % 146097;
    CivilShape(days);
    EraYear(dayOfEra);
    var of, day := YearOfEra(dayOfEra), EraDayOf(dayOfEra);
    var y := of + era * 400;
    EraLength(of, era);
    OneQuotient(y, 400, era);
    InEra(y);
    YearDate(y, day);
    DaysLinear(CivilOf(days));
  }

  // ---- order ----

  predicate Earlier(d: Date, e: Date) {
    d.year < e.year || (d.year == e.year && (d.month < e.month || (d.month == e.month && d.day < e.day)))
  }

  lemma {:induction false} EarlierInYear(d: Date, e: Date)
    requires Valid(d) && Valid(e) && Earlier(d, e) && YearOf(d) == YearOf(e)
    ensures DayIn(d.month, d.day) < DayIn(e.month, e.day)
  {
  }

  /** Days are in the order of their dates. */
  lemma {:induction false} InOrder(d: Date, e: Date)
    requires Valid(d) && Valid(e)
    ensures Earlier(d, e) <==> Days(d) < Days(e)
  {
    hide Length;
    hide Before;
    if Earlier(d, e) { OneWay(d, e); }
    if Earlier(e, d) { OneWay(e, d); }
  }

  lemma {:induction false} OneWay(d: Date, e: Date)
    requires Valid(d) && Valid(e) && Earlier(d, e)
    ensures Days(d) < Days(e)
  {
    hide Length;
    hide Before;
    DaysLinear(d);
    DaysLinear(e);
    DayInYear(d);
    DayInYear(e);
    if YearOf(d) == YearOf(e) { EarlierInYear(d, e); } else { YearsGrow(YearOf(d), YearOf(e)); }
  }

  /** Every valid date is that of its day. */
  lemma {:induction false} DayOfDate(d: Date)
    requires Valid(d)
    ensures CivilOf(Days(d)) == d
  {
    hide CivilOf;
    hide DaysOf;
    hide Valid;
    var e := CivilOf(Days(d));
    DateOfDay(Days(d));
    InOrder(d, e);
    InOrder(e, d);
  }

  /** Days count the calendar's days: the first is 1970-01-01, and each date is followed by the next. */
  lemma {:induction false} DaysCount(days: int)
    ensures CivilOf(0) == Date(1970, 1, 1) && CivilOf(days + 1) == Next(CivilOf(days))
  {
    hide CivilOf;
    hide DaysOf;
    hide Valid;
    FirstDay();
    var d := CivilOf(days);
    DateOfDay(days);
    NextCounts(d);
    DayOfDate(Next(d));
  }

  lemma {:induction false} FirstDay()
    ensures CivilOf(0) == Date(1970, 1, 1)
  {
  }

  lemma {:induction false} NextCounts(d: Date)
    requires Valid(d)
    ensures Valid(Next(d)) && Days(Next(d)) == Days(d) + 1
  {
    hide Before;
    hide DaysOf;
    hide Valid;
    hide DayIn;
    hide Length;
    NextInYear(d);
    DaysLinear(d);
    DaysLinear(Next(d));
    NextYear(YearOf(d));
  }

  /** The next day is the next of the year from March, or the first of the next one. */
  lemma {:induction false} NextInYear(d: Date)
    requires Valid(d)
    ensures Valid(Next(d))
    ensures var day, next := DayIn(d.month, d.day), DayIn(Next(d).month, Next(d).day);
      if YearOf(Next(d)) == YearOf(d) then next == day + 1
      else YearOf(Next(d)) == YearOf(d) + 1 && next == 0 && day + 1 == Length(YearOf(d))
  {
  }
}
