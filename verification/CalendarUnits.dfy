/**
 How the units of date_trunc nest (src/exec/compute.cc): so many starts of a shorter unit from one
 start of a longer to the next, down to the microsecond, and on which days weeks start.
 */
module CalendarUnits {
  import opened Options
  import opened Calendar
  import opened CalendarFloors

  /** Two starts of a unit with none between. */
  ghost predicate Consecutive(unit: Unit, a: int, b: int) {
    a < b && Starts(unit, a) && Starts(unit, b) && forall s | a < s < b :: !Starts(unit, s)
  }

  /** The starts of a unit from `a` to before `b`. */
  ghost function StartsFrom(unit: Unit, a: int, b: int): set<int> {
    set s | a <= s < b && Starts(unit, s)
  }

  // ---- multiples of a step ----

  ghost function MultiplesFrom(step: int, a: int, b: int): set<int>
    requires step > 0
  {
    set s | a <= s < b && s % step == 0
  }

  /** Multiples of a step are at least a step apart. */
  lemma {:induction false} StepApart(step: int, a: int, b: int)
    requires step > 0 && a % step == 0 && b % step == 0 && a < b
    ensures a + step <= b
  {
    Multiples(step, b / step, a / step);
    Multiples(step, a / step, b / step);
  }

  lemma {:induction false} NextMultiple(step: int, a: int)
    requires step > 0 && a % step == 0
    ensures (a + step) % step == 0
  {
    assert a + step == step * (a / step + 1);
    OneQuotient(a + step, step, a / step + 1);
  }

  lemma {:induction false} CountMultiples(step: int, a: int, n: nat) returns (b: int)
    requires step > 0 && a % step == 0
    ensures b == a + n * step && b % step == 0 && |MultiplesFrom(step, a, b)| == n
    decreases n
  {
    if n == 0 {
      b := a;
      assert MultiplesFrom(step, a, b) == {};
    } else {
      var last := CountMultiples(step, a, n - 1);
      b := last + step;
      assert b == a + n * step;
      NextMultiple(step, last);
      OneMultipleMore(step, a, last);
    }
  }

  lemma {:induction false} OneMultipleMore(step: int, a: int, last: int)
    requires step > 0 && a <= last && last % step == 0
    ensures |MultiplesFrom(step, a, last + step)| == |MultiplesFrom(step, a, last)| + 1
  {
    forall s | last < s < last + step ensures s % step != 0 {
      if s % step == 0 { StepApart(step, last, s); }
    }
    assert MultiplesFrom(step, a, last + step) == MultiplesFrom(step, a, last) + {last};
  }

  /** From one multiple of a long step to the next there are as many of a short one as it goes into the long. */
  lemma {:induction false} Nests(long: int, short: int, n: nat, a: int)
    requires short > 0 && long == n * short && long > 0 && a % long == 0
    ensures |MultiplesFrom(short, a, a + long)| == n
  {
    assert a == short * (n * (a / long));
    OneQuotient(a, short, n * (a / long));
    var b := CountMultiples(short, a, n);
  }

  // ---- units ----

  /** The microseconds from one start to the next. */
  function Length(unit: Unit): int { if unit.Day? then DAY else StepOf(unit) }

  lemma {:induction false} StartsEvery(unit: Unit, at: int)
    requires OfDay(unit) || unit.Day?
    ensures Length(unit) > 0 && (Starts(unit, at) <==> at % Length(unit) == 0)
  {
    hide CivilOf;
  }

  lemma {:induction false} Between(long: Unit, short: Unit, n: nat, a: int, b: int)
    requires (OfDay(long) || long.Day?) && OfDay(short) && Length(long) == n * Length(short) && Consecutive(long, a, b)
    ensures |StartsFrom(short, a, b)| == n
  {
    hide CivilOf;
    hide Starts;
    hide Length;
    var step := Length(long);
    StartsEvery(long, a);
    StartsEvery(long, b);
    StepApart(step, a, b);
    NextMultiple(step, a);
    StartsEvery(long, a + step);
    assert b == a + step;
    Nests(step, Length(short), n, a);
    forall s ensures Starts(short, s) <==> s % Length(short) == 0 { StartsEvery(short, s); }
    assert StartsFrom(short, a, b) == MultiplesFrom(Length(short), a, b);
  }

  /** A day is 24 hours, an hour 60 minutes and so on; every microsecond is one, and all units start with 1970. */
  lemma {:induction false} UnitsNest(a: int, b: int)
    ensures Consecutive(Day, a, b) ==> |StartsFrom(Hour, a, b)| == 24
    ensures Consecutive(Hour, a, b) ==> |StartsFrom(Minute, a, b)| == 60
    ensures Consecutive(Minute, a, b) ==> |StartsFrom(Second, a, b)| == 60
    ensures Consecutive(Second, a, b) ==> |StartsFrom(Millisecond, a, b)| == 1_000
    ensures Consecutive(Millisecond, a, b) ==> |StartsFrom(Microsecond, a, b)| == 1_000
    ensures Starts(Microsecond, a)
    ensures Starts(Day, 0) && Starts(Hour, 0) && Starts(Minute, 0) && Starts(Second, 0) && Starts(Millisecond, 0)
  {
    hide CivilOf;
    if Consecutive(Day, a, b) { Between(Day, Hour, 24, a, b); }
    if Consecutive(Hour, a, b) { Between(Hour, Minute, 60, a, b); }
    if Consecutive(Minute, a, b) { Between(Minute, Second, 60, a, b); }
    if Consecutive(Second, a, b) { Between(Second, Millisecond, 1_000, a, b); }
    if Consecutive(Millisecond, a, b) { Between(Millisecond, Microsecond, 1_000, a, b); }
  }

  /** Weeks start on the Mondays: 5 January 1970 was one, and every seventh day from it is. */
  lemma {:induction false} Mondays(days: int)
    ensures Monday(days) <==> exists n :: days == DaysOf(1970, 1, 5) + 7 * n
    ensures Starts(Week, days * DAY) <==> Monday(days)
  {
    hide CivilOf;
    assert DaysOf(1970, 1, 5) == 4;
    if Monday(days) { assert days == 4 + 7 * (days / 7); }
    OneQuotient(days * DAY, DAY, days);
  }

  /** Timestamps go from the first midnight that 64 bits hold to the microsecond before infinity, the last they hold. */
  lemma {:induction false} TimestampBounds(at: int)
    ensures InRange(at) <==> MIN_TIMESTAMP <= at < 0x7FFF_FFFF_FFFF_FFFF
    ensures Starts(Day, MIN_TIMESTAMP) && MIN_TIMESTAMP - DAY < -0x8000_0000_0000_0000 <= MIN_TIMESTAMP
  {
    hide CivilOf;
    OneQuotient(MIN_TIMESTAMP, DAY, -106_751_991);
  }

  // ---- order ----

  lemma {:induction false} QuotientGrows(a: int, b: int, span: int)
    requires span > 0 && a <= b
    ensures Quotient(a, span) <= Quotient(b, span)
  {
    if a >= 0 {
      DivGrows(a, b, span);
    } else if b < 0 {
      DivGrows(-b, -a, span);
    } else {
      DivGrows(0, -a, span);
      DivGrows(0, b, span);
    }
  }

  lemma {:induction false} DivGrows(a: nat, b: nat, span: int)
    requires span > 0 && a <= b
    ensures 0 <= a / span <= b / span
  {
    var p, q := a / span, b / span;
    assert span * p <= a && b < span * q + span;
    Multiples(span, p, q);
  }

  lemma {:induction false} YearsGrow(unit: Unit, a: int, b: int)
    requires OfYears(unit) && a <= b
    ensures DayTrunc(unit, a) <= DayTrunc(unit, b)
  {
    hide CivilOf;
    hide DaysOf;
    var span := SpanOf(unit);
    DateOfDay(a);
    DateOfDay(b);
    InOrder(CivilOf(b), CivilOf(a));
    var x, y := CivilOf(a).year, CivilOf(b).year;
    QuotientGrows(x, y, span);
    var m, n := Quotient(x, span) * span, Quotient(y, span) * span;
    assert (Quotient(y, span) - Quotient(x, span)) * span >= 0;
    InOrder(Date(n, 1, 1), Date(m, 1, 1));
  }

  /** A later time is not truncated to an earlier one. */
  lemma {:induction false} TruncGrows(unit: Unit, a: int, b: int)
    requires a <= b
    ensures Truncated(unit, a) <= Truncated(unit, b)
  {
    hide CivilOf;
    hide DayTrunc;
    if OfYears(unit) {
      Floors(a, DAY);
      Floors(b, DAY);
      YearsGrow(unit, a / DAY, b / DAY);
    } else {
      hide Truncated;
      hide Starts;
      TruncFloors(unit, a);
      TruncFloors(unit, b);
    }
  }

  /**
   date_trunc keeps the order of a column's values, the infinities first and last, and is the same of a date and of
   its midnight.
   */
  lemma {:induction false} TruncInOrder(unit: Unit, dates: bool, a: int, b: int)
    requires a <= b
    ensures var x, y := RowTrunc(unit, dates, Some(a)), RowTrunc(unit, dates, Some(b));
      var last := if dates then DATE_INFINITY else INFINITY;
      x.Gives? && y.Gives? && -last <= a && b <= last ==>
        x.value.Some? && y.value.Some? && x.value.value <= y.value.value
    ensures -DATE_INFINITY < a < DATE_INFINITY ==>
      RowTrunc(unit, true, Some(a)) == RowTrunc(unit, false, Some(a * DAY))
  {
    hide Truncated;
    if dates { TruncGrows(unit, a * DAY, b * DAY); } else { TruncGrows(unit, a, b); }
  }

  /** NULL and the infinities stay what they are, a DATE's becoming a TIMESTAMP's. */
  lemma {:induction false} EndsStay(unit: Unit)
    ensures RowTrunc(unit, true, None) == RowTrunc(unit, false, None) == Gives(None)
    ensures RowTrunc(unit, true, Some(0x7FFF_FFFF)) == Gives(Some(0x7FFF_FFFF_FFFF_FFFF))
    ensures RowTrunc(unit, true, Some(-0x7FFF_FFFF)) == Gives(Some(-0x7FFF_FFFF_FFFF_FFFF))
    ensures RowTrunc(unit, false, Some(0x7FFF_FFFF_FFFF_FFFF)) == Gives(Some(0x7FFF_FFFF_FFFF_FFFF))
    ensures RowTrunc(unit, false, Some(-0x7FFF_FFFF_FFFF_FFFF)) == Gives(Some(-0x7FFF_FFFF_FFFF_FFFF))
  {
    hide Truncated;
  }
}
