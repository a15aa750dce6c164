/**
 ISO weeks and date_trunc (src/exec/compute.cc): every day is in its ISO year, counted in weeks from
 the year's first Monday, and date_trunc gives the last start of the unit at or before a value.
 */
module CalendarFloors {
  import opened Options
  import opened Calendar

  // ---- years ----

  /** A day is in the year whose first day is before it, and the next one's not. */
  lemma {:induction false} InYear(days: int, year: int)
    ensures CivilOf(days).year == year <==> DaysOf(year, 1, 1) <= days < DaysOf(year + 1, 1, 1)
  {
    hide CivilOf;
    hide DaysOf;
    hide Leap;
    DateOfDay(days);
    InOrder(CivilOf(days), Date(year, 1, 1));
    InOrder(CivilOf(days), Date(year + 1, 1, 1));
  }

  /** January's days follow its first. */
  lemma {:induction false} January(year: int, day: int)
    ensures DaysOf(year, 1, day) == DaysOf(year, 1, 1) + day - 1
  {
  }

  // ---- weeks ----

  function WeekdayFromMonday(days: int): int { FloorMod(days + 3, 7) }

  function IsoYearOf(days: int): int { CivilOf(days - WeekdayFromMonday(days) + 3).year }

  function IsoWeekOf(days: int): int {
    var thursday := days - WeekdayFromMonday(days) + 3;
    Quotient(thursday - DaysOf(CivilOf(thursday).year, 1, 1), 7) + 1
  }

  function IsoYearStart(isoYear: int): int {
    var january4 := DaysOf(isoYear, 1, 4);
    january4 - WeekdayFromMonday(january4)
  }

  predicate Monday(days: int) { days % 7 == 4 }

  lemma {:induction false} Weekday(days: int)
    ensures 0 <= WeekdayFromMonday(days) < 7 && Monday(days - WeekdayFromMonday(days))
  {
    Floors(days + 3, 7);
  }

  /** Mondays are weeks apart. */
  lemma {:induction false} Weeks(a: int, b: int)
    requires Monday(a) && Monday(b) && a < b
    ensures a + 7 <= b
  {
  }

  /** An ISO year starts on the Monday whose Thursday is one of the first seven days of January. */
  lemma {:induction false} StartsIsoYear(days: int, year: int)
    ensures days == IsoYearStart(year)
       <==> Monday(days) && var t := CivilOf(days + 3); t.year == year && t.month == 1 && t.day <= 7
  {
    hide CivilOf;
    hide DaysOf;
    hide WeekdayFromMonday;
    FirstWeek(days + 3, year);
    January(year, 4);
    var start := IsoYearStart(year);
    Weekday(DaysOf(year, 1, 4));
    if days == start {
    } else if Monday(days) {
      if days < start { Weeks(days, start); } else { Weeks(start, days); }
    }
  }

  lemma {:induction false} FirstWeek(days: int, year: int)
    ensures 0 <= days - DaysOf(year, 1, 1) < 7 <==> var t := CivilOf(days); t.year == year && t.month == 1 && t.day <= 7
  {
    hide CivilOf;
    hide DaysOf;
    hide Leap;
    DateOfDay(days);
    January(year, 8);
    InOrder(CivilOf(days), Date(year, 1, 1));
    InOrder(CivilOf(days), Date(year, 1, 8));
  }

  /** Every day is in its ISO year, and its week is the seven days counted from the start. */
  lemma {:induction false} IsoWeeks(days: int)
    ensures var start := IsoYearStart(IsoYearOf(days));
      && start <= days < IsoYearStart(IsoYearOf(days) + 1)
      && IsoWeekOf(days) == (days - start) / 7 + 1
  {
    hide CivilOf;
    hide DaysOf;
    hide WeekdayFromMonday;
    var year := IsoYearOf(days);
    var monday := days - WeekdayFromMonday(days);
    Weekday(days);
    InYear(monday + 3, year);
    FirstMonday(year);
    FirstMonday(year + 1);
    var start, next := IsoYearStart(year), IsoYearStart(year + 1);
    if monday < start { Weeks(monday, start); }
    if monday < next { Weeks(monday, next); }
    OneWeek(monday, start, days - monday, start + 3 - DaysOf(year, 1, 1));
  }

  lemma {:induction false} FirstMonday(year: int)
    ensures var start := IsoYearStart(year); Monday(start) && 0 <= start + 3 - DaysOf(year, 1, 1) < 7
  {
    hide DaysOf;
    hide WeekdayFromMonday;
    January(year, 4);
    Weekday(DaysOf(year, 1, 4));
  }

  /** Two days of one week are as many weeks after a Monday. */
  lemma {:induction false} OneWeek(monday: int, start: int, a: int, b: int)
    requires Monday(monday) && Monday(start) && start <= monday && 0 <= a < 7 && 0 <= b < 7
    ensures (monday + a - start) / 7 == (monday - start + b) / 7
  {
    var weeks := (monday - start) / 7;
    assert monday - start == 7 * weeks;
    OneQuotient(monday + a - start, 7, weeks);
    OneQuotient(monday - start + b, 7, weeks);
  }

  // ---- units ----

  const DAY := 86_400_000_000
  const INFINITY := 0x7FFF_FFFF_FFFF_FFFF
  const DATE_INFINITY := 0x7FFF_FFFF
  const MIN_TIMESTAMP := -9_223_372_022_400_000_000

  datatype Unit =
    | Microsecond | Millisecond | Second | Minute | Hour | Day | Week | Month | Quarter | Year | IsoYear
    | Decade | Century | Millennium | Unknown

  /** The microseconds of a unit shorter than a day. */
  function StepOf(unit: Unit): (step: int)
    ensures step > 0
  {
    match unit
    case Microsecond => 1
    case Millisecond => 1_000
    case Second => 1_000_000
    case Minute => 60_000_000
    case _ => 3_600_000_000
  }

  /** The years of a decade and longer. */
  function SpanOf(unit: Unit): (span: int)
    ensures span > 0
  {
    match unit
    case Decade => 10
    case Century => 100
    case Millennium => 1_000
    case _ => 1
  }

  predicate OfDay(unit: Unit) { unit.Microsecond? || unit.Millisecond? || unit.Second? || unit.Minute? || unit.Hour? }

  predicate OfYears(unit: Unit) { unit.Decade? || unit.Century? || unit.Millennium? }

  /** The day a day is truncated to (date_trunc of a unit of a day or longer). */
  function DayTrunc(unit: Unit, days: int): int {
    var date := CivilOf(days);
    match unit
    case Week => days - WeekdayFromMonday(days)
    case IsoYear => IsoYearStart(IsoYearOf(days))
    case Month => DaysOf(date.year, date.month, 1)
    case Quarter => DaysOf(date.year, Quotient(date.month - 1, 3) * 3 + 1, 1)
    case Year => DaysOf(date.year, 1, 1)
    case Decade => DaysOf(Quotient(date.year, 10) * 10, 1, 1)
    case Century => DaysOf(Quotient(date.year, 100) * 100, 1, 1)
    case Millennium => DaysOf(Quotient(date.year, 1_000) * 1_000, 1, 1)
    case _ => days
  }

  /** Microseconds since 1970, truncated. */
  function Truncated(unit: Unit, at: int): int {
    var days := FloorDiv(at, DAY);
    var micros := at - days * DAY;
    if OfDay(unit) then days * DAY + micros - micros % StepOf(unit) else DayTrunc(unit, days) * DAY
  }

  // ---- what a unit's starts are ----

  /** The first days of a unit. */
  predicate StartsDay(unit: Unit, days: int) {
    var date := CivilOf(days);
    match unit
    case Week => Monday(days)
    case IsoYear => Monday(days) && CivilOf(days + 3).month == 1 && CivilOf(days + 3).day <= 7
    case Month => date.day == 1
    case Quarter => date.day == 1 && date.month in {1, 4, 7, 10}
    case Year => date.day == 1 && date.month == 1
    case Decade => date.day == 1 && date.month == 1 && date.year % 10 == 0
    case Century => date.day == 1 && date.month == 1 && date.year % 100 == 0
    case Millennium => date.day == 1 && date.month == 1 && date.year % 1_000 == 0
    case _ => true
  }

  predicate Starts(unit: Unit, at: int) {
    if OfDay(unit) then at % StepOf(unit) == 0 else at % DAY == 0 && StartsDay(unit, at / DAY)
  }

  /** `start` is the last start of a unit at or before a day. */
  ghost predicate FloorsDay(unit: Unit, days: int, start: int) {
    && start <= days && StartsDay(unit, start)
    && forall s | StartsDay(unit, s) && s <= days :: s <= start
  }

  ghost predicate IsFloor(unit: Unit, at: int, start: int) {
    && start <= at && Starts(unit, start)
    && forall s | Starts(unit, s) && s <= at :: s <= start
  }

  // ---- truncating days ----

  /** Between the dates of two days. */
  lemma {:induction false} NotAfter(days: int, date: Date)
    requires Valid(date)
    ensures Days(date) <= days <==> !Earlier(CivilOf(days), date)
  {
    hide CivilOf;
    hide DaysOf;
    hide Valid;
    DateOfDay(days);
    InOrder(CivilOf(days), date);
  }

  lemma {:induction false} MonthFloors(unit: Unit, days: int)
    requires unit.Month? || unit.Quarter? || unit.Year?
    ensures FloorsDay(unit, days, DayTrunc(unit, days))
  {
    hide CivilOf;
    hide DaysOf;
    var date := CivilOf(days);
    DateOfDay(days);
    var month := if unit.Month? then date.month else if unit.Quarter? then (date.month - 1) / 3 * 3 + 1 else 1;
    var first := Date(date.year, month, 1);
    DayOfDate(first);
    NotAfter(days, first);
    forall s | StartsDay(unit, s) && s <= days ensures s <= Days(first) {
      DateOfDay(s);
      InOrder(date, CivilOf(s));
      InOrder(first, CivilOf(s));
    }
  }

  lemma {:induction false} WeekFloors(days: int)
    ensures FloorsDay(Week, days, DayTrunc(Week, days))
  {
    hide CivilOf;
    hide WeekdayFromMonday;
    Weekday(days);
    var monday := DayTrunc(Week, days);
    forall s | StartsDay(Week, s) && s <= days ensures s <= monday {
      if monday < s { Weeks(monday, s); }
    }
  }

  lemma {:induction false} IsoYearFloors(days: int)
    ensures FloorsDay(IsoYear, days, DayTrunc(IsoYear, days))
  {
    hide CivilOf;
    hide DaysOf;
    hide IsoYearStart;
    hide IsoYearOf;
    IsoWeeks(days);
    var year := IsoYearOf(days);
    var start := IsoYearStart(year);
    StartsIsoYear(start, year);
    forall s | StartsDay(IsoYear, s) && s <= days ensures s <= start {
      var other := CivilOf(s + 3).year;
      StartsIsoYear(s, other);
      if other > year { IsoYearsGrow(year + 1, other); } else { IsoYearsGrow(other, year); }
    }
  }

  lemma {:induction false} IsoYearsGrow(a: int, b: int)
    requires a <= b
    ensures IsoYearStart(a) <= IsoYearStart(b)
    decreases b - a
  {
    hide IsoYearStart;
    if a < b {
      NextIsoYear(a);
      IsoYearsGrow(a + 1, b);
    }
  }

  lemma {:induction false} NextIsoYear(year: int)
    ensures IsoYearStart(year) < IsoYearStart(year + 1)
  {
    hide IsoYearStart;
    hide CivilOf;
    hide DaysOf;
    FirstMonday(year);
    FirstMonday(year + 1);
    InOrder(Date(year, 1, 8), Date(year + 1, 1, 1));
    January(year, 8);
  }

  /** A decade and longer is truncated toward year 0. */
  lemma {:induction false} YearsTrunc(unit: Unit, days: int)
    requires OfYears(unit)
    ensures var start := DayTrunc(unit, days);
      CivilOf(start) == Date(Quotient(CivilOf(days).year, SpanOf(unit)) * SpanOf(unit), 1, 1) && StartsDay(unit, start)
  {
    hide CivilOf;
    hide DaysOf;
    var span := SpanOf(unit);
    var year := Quotient(CivilOf(days).year, span) * span;
    DayOfDate(Date(year, 1, 1));
    assert year % span == 0;
  }

  /** ... which floors just when the year is not before 0 or starts the unit. */
  lemma {:induction false} YearsFloor(unit: Unit, days: int)
    requires OfYears(unit)
    ensures var year := CivilOf(days).year;
      FloorsDay(unit, days, DayTrunc(unit, days)) <==> year >= 0 || year % SpanOf(unit) == 0
  {
    hide CivilOf;
    hide DaysOf;
    hide DayTrunc;
    var date, start, span := CivilOf(days), DayTrunc(unit, days), SpanOf(unit);
    YearsTrunc(unit, days);
    DateOfDay(days);
    DateOfDay(start);
    TowardZero(date.year, span);
    InOrder(date, CivilOf(start));
    if date.year >= 0 || date.year % span == 0 {
      forall s | StartsDay(unit, s) && s <= days ensures s <= start {
        DateOfDay(s);
        InOrder(date, CivilOf(s));
        InOrder(CivilOf(start), CivilOf(s));
        LastMultiple(date.year, span, CivilOf(s).year);
      }
    }
  }

  lemma {:induction false} TowardZero(year: int, span: int)
    requires span > 0
    ensures var y := Quotient(year, span) * span;
      && (year >= 0 || year % span == 0 ==> y == year - year % span)
      && (year < 0 && year % span != 0 ==> y > year)
  {
    if year < 0 {
      var q := (-year) / span;
      assert span * q <= -year < span * q + span;
      assert Quotient(year, span) * span == -(span * q);
      if year % span == 0 {
        assert -year == span * (-(year / span));
        OneQuotient(-year, span, -(year / span));
      } else if span * q == -year {
        assert year == span * (-q);
        OneQuotient(year, span, -q);
      }
    }
  }

  lemma {:induction false} LastMultiple(a: int, span: int, m: int)
    requires span > 0 && m % span == 0
    ensures m <= a ==> m <= a - a % span
  {
    Multiples(span, m / span, a / span);
  }

  // ---- truncating times ----

  lemma {:induction false} DayFloors(unit: Unit, days: int)
    requires !OfYears(unit) && !OfDay(unit)
    ensures FloorsDay(unit, days, DayTrunc(unit, days))
  {
    hide CivilOf;
    match unit
    case Week => WeekFloors(days);
    case IsoYear => IsoYearFloors(days);
    case Month => MonthFloors(unit, days);
    case Quarter => MonthFloors(unit, days);
    case Year => MonthFloors(unit, days);
    case _ =>
  }

  /** A time of day does not count for a unit of a day or longer. */
  lemma {:induction false} DaysAlone(unit: Unit, at: int)
    requires !OfDay(unit)
    ensures IsFloor(unit, at, Truncated(unit, at)) <==> FloorsDay(unit, at / DAY, DayTrunc(unit, at / DAY))
  {
    hide StartsDay;
    hide DayTrunc;
    Floors(at, DAY);
    var days := at / DAY;
    var start := DayTrunc(unit, days);
    if FloorsDay(unit, days, start) {
      forall s | Starts(unit, s) && s <= at ensures s <= start * DAY {
        assert StartsDay(unit, s / DAY);
      }
    }
    if IsFloor(unit, at, start * DAY) {
      forall s | StartsDay(unit, s) && s <= days ensures s <= start {
        assert Starts(unit, s * DAY);
      }
    }
  }

  lemma {:induction false} StepFloors(unit: Unit, at: int)
    requires OfDay(unit)
    ensures IsFloor(unit, at, Truncated(unit, at))
  {
    Floors(at, DAY);
    var step := StepOf(unit);
    StepInDay(unit, at);
    var start := at - at % step;
    forall s | Starts(unit, s) && s <= at ensures s <= start { LastMultiple(at, step, s); }
    assert start == step * (at / step);
    OneQuotient(start, step, at / step);
  }

  lemma {:induction false} StepInDay(unit: Unit, at: int)
    requires OfDay(unit)
    ensures (at % DAY) % StepOf(unit) == at % StepOf(unit)
  {
    var step, m := StepOf(unit), at % DAY;
    var steps := DAY / step;
    assert step * steps == DAY;
    SameRemainder(step, steps, at / DAY, m);
  }

  lemma {:induction false} SameRemainder(step: int, steps: int, days: int, m: int)
    requires step > 0
    ensures (step * steps * days + m) % step == m % step
  {
    assert step * steps * days + m == step * (steps * days + m / step) + m % step;
    OneQuotient(step * steps * days + m, step, steps * days + m / step);
  }

  /** date_trunc gives the last start of the unit, just when the year is not one truncated upward. */
  lemma {:induction false} TruncFloors(unit: Unit, at: int)
    ensures var year := CivilOf(at / DAY).year;
      IsFloor(unit, at, Truncated(unit, at)) <==> (OfYears(unit) ==> year >= 0 || year % SpanOf(unit) == 0)
  {
    hide CivilOf;
    hide IsFloor;
    hide FloorsDay;
    if OfDay(unit) {
      StepFloors(unit, at);
    } else {
      DaysAlone(unit, at);
      if OfYears(unit) { YearsFloor(unit, at / DAY); } else { DayFloors(unit, at / DAY); }
    }
  }

  /** A unit's start is truncated to itself. */
  lemma {:induction false} StartStays(unit: Unit, at: int)
    requires Starts(unit, at)
    ensures Truncated(unit, at) == at
  {
    hide CivilOf;
    hide Truncated;
    hide DaysOf;
    if OfYears(unit) { StartOfYears(unit, at); }
    TruncFloors(unit, at);
  }

  lemma {:induction false} StartOfYears(unit: Unit, at: int)
    requires OfYears(unit) && Starts(unit, at)
    ensures CivilOf(at / DAY).year % SpanOf(unit) == 0
  {
  }

  /** Truncating twice changes nothing. */
  lemma {:induction false} TruncTwice(unit: Unit, at: int)
    ensures Starts(unit, Truncated(unit, at)) && Truncated(unit, Truncated(unit, at)) == Truncated(unit, at)
  {
    hide CivilOf;
    hide DayTrunc;
    hide StartsDay;
    if OfYears(unit) {
      Floors(at, DAY);
      YearsTrunc(unit, at / DAY);
    } else {
      TruncFloors(unit, at);
    }
    StartStays(unit, Truncated(unit, at));
  }

  // ---- the engine's loop ----

  /** A DATE column's days or a TIMESTAMP column's microseconds; None is NULL. */
  datatype Column = Dates(values: seq<Option<int>>) | Timestamps(values: seq<Option<int>>)

  datatype Row = Failed | Gives(value: Option<int>)

  predicate InRange(at: int) { MIN_TIMESTAMP <= at < INFINITY }

  /** What date_trunc means for one value. */
  function RowTrunc(unit: Unit, dates: bool, v: Option<int>): Row {
    var infinity := if dates then DATE_INFINITY else INFINITY;
    if v.None? then Gives(None)
    else if v.value == infinity then Gives(Some(INFINITY))
    else if v.value == -infinity then Gives(Some(-INFINITY))
    else
      var at := Truncated(unit, if dates then v.value * DAY else v.value);
      if unit.Unknown? || !InRange(at) then Failed else Gives(Some(at))
  }

  /** The start of a step in a day. */
  function StepStart(unit: Unit, micros: int): (start: int)
    requires 0 <= micros
    ensures 0 <= start <= micros
  {
    assert 0 <= micros % StepOf(unit) <= micros;
    micros - micros % StepOf(unit)
  }

  lemma {:induction false} OneInstant(unit: Unit, days: int, micros: int)
    requires 0 <= micros < DAY
    ensures Truncated(unit, days * DAY + micros)
         == if OfDay(unit) then days * DAY + StepStart(unit, micros) else DayTrunc(unit, days) * DAY
  {
    hide DayTrunc;
    hide StepOf;
    hide FloorDiv;
    var at := days * DAY + micros;
    Floors(at, DAY);
    OneQuotient(at, DAY, days);
  }

  /** One day and time of day (the loop's body). */
  method TruncOne(unit: Unit, t: int, micros: int) returns (r: Option<int>)
    requires 0 <= micros < DAY
    ensures r == var at := Truncated(unit, t * DAY + micros); if unit.Unknown? || !InRange(at) then None else Some(at)
  {
    hide DayTrunc;
    hide Truncated;
    hide StepStart;
    OneInstant(unit, t, micros);
    var days, left := t, 0;
    if OfDay(unit) {
      left := StepStart(unit, micros);
    } else if unit.Unknown? {
      return None;
    } else {
      days := DayTrunc(unit, t);
    }
    var product := days * DAY;
    if product < -INFINITY - 1 || product > INFINITY {
      return None;
    }
    var sum := product + left;
    if sum < -INFINITY - 1 || sum > INFINITY || sum < MIN_TIMESTAMP || sum >= INFINITY {
      return None;
    }
    r := Some(sum);
  }

  method DateTrunc(unit: Unit, column: Column) returns (r: Option<seq<Option<int>>>)
    ensures r.None? <==> exists i | 0 <= i < |column.values| :: RowTrunc(unit, column.Dates?, column.values[i]).Failed?
    ensures r.Some? ==> |r.value| == |column.values|
    ensures r.Some? ==>
      forall i | 0 <= i < |column.values| :: RowTrunc(unit, column.Dates?, column.values[i]) == Gives(r.value[i])
  {
    hide Truncated;
    var out: seq<Option<int>> := [];
    var infinity := if column.Dates? then DATE_INFINITY else INFINITY;
    for i := 0 to |column.values|
      invariant |out| == i
      invariant forall k | 0 <= k < i :: RowTrunc(unit, column.Dates?, column.values[k]) == Gives(out[k])
    {
      var v := column.values[i];
      if v.None? {
        out := out + [None];
      } else if v.value == infinity || v.value == -infinity {
        out := out + [Some(if v.value > 0 then INFINITY else -INFINITY)];
      } else {
        var days, micros := v.value, 0;
        if column.Timestamps? {
          Floors(v.value, DAY);
          days := FloorDiv(v.value, DAY);
          micros := v.value - days * DAY;
        }
        var one := TruncOne(unit, days, micros);
        if one.None? {
          return None;
        }
        out := out + [one];
      }
    }
    r := Some(out);
  }

  /** What date_trunc gives, it gives again. */
  lemma {:induction false} AgainTheSame(unit: Unit, dates: bool, v: Option<int>)
    ensures var r := RowTrunc(unit, dates, v); r.Gives? ==> RowTrunc(unit, false, r.value) == r
  {
    hide Truncated;
    hide Starts;
    if v.Some? { TruncTwice(unit, if dates then v.value * DAY else v.value); }
  }
}
