/** The Gregorian calendar by its leap rule, and time counted from the first of January of a year. */
module Calendar {
  const DAY: nat := 86_400_000_000  // microseconds, as both time scales count them

  predicate Leap(year: nat) { year % 4 == 0 && (year % 100 != 0 || year % 400 == 0) }

  function YearDays(year: nat): nat { if Leap(year) then 366 else 365 }

  /** The days of the years from `first` up to and without `year`. */
  function DaysFrom(first: nat, year: nat): nat
    requires first <= year
  {
    if year == first then 0 else DaysFrom(first, year - 1) + YearDays(year - 1)
  }

  /** A microsecond of a day of a year; days are counted from zero. */
  datatype Moment = Moment(year: nat, day: nat, micros: nat)

  predicate Valid(m: Moment) { m.day < YearDays(m.year) && m.micros < DAY }

  /** Microseconds since the year `epoch` began. */
  function Since(epoch: nat, m: Moment): nat
    requires epoch <= m.year
  {
    (DaysFrom(epoch, m.year) + m.day) * DAY + m.micros
  }

  lemma {:induction false} DaysJoin(a: nat, b: nat, c: nat)
    requires a <= b <= c
    ensures DaysFrom(a, c) == DaysFrom(a, b) + DaysFrom(b, c)
  {
    if c > b { DaysJoin(a, b, c - 1); }
  }

  /** From 1901 to 2099 every fourth year is a leap year. */
  lemma {:induction false} DaysSince1900(year: nat)
    requires 1901 <= year <= 2100
    ensures DaysFrom(1900, year) == 365 * (year - 1900) + (year - 1901) / 4
  {
    if year > 1901 {
      DaysSince1900(year - 1);
      assert Leap(year - 1) <==> (year - 1) % 4 == 0;
    } else {
      assert DaysFrom(1900, 1900) == 0 && !Leap(1900);
    }
  }

  lemma {:induction false} DaysGrow(first: nat, a: nat, b: nat)
    requires first <= a < b
    ensures DaysFrom(first, a) + YearDays(a) <= DaysFrom(first, b)
  {
    if a + 1 < b { DaysGrow(first, a, b - 1); }
  }

  /** A moment lies before a year begins exactly when its year does. */
  lemma BeforeYear(epoch: nat, m: Moment, year: nat)
    requires Valid(m) && epoch <= m.year && epoch <= year
    ensures Since(epoch, m) < DaysFrom(epoch, year) * DAY <==> m.year < year
  {
    hide DaysFrom;
    var days, limit := DaysFrom(epoch, m.year) + m.day, DaysFrom(epoch, year);
    if m.year < year {
      DaysGrow(epoch, m.year, year);
      assert days + 1 <= limit;
    } else {
      if year < m.year { DaysGrow(epoch, year, m.year); }
      assert limit <= days;
    }
  }

  lemma EpochsApart(m: Moment)
    requires m.year >= 1970
    ensures Since(1900, m) == 25567 * DAY + Since(1970, m)
  {
    DaysSince1900(1970);
    DaysJoin(1900, 1970, m.year);
  }

  /** Every microsecond since a year began is one moment of the calendar. */
  lemma {:induction false} MomentOf(epoch: nat, days: nat, micros: nat) returns (m: Moment)
    requires micros < DAY
    ensures Valid(m) && m.year >= epoch && Since(epoch, m) == days * DAY + micros
    decreases days
  {
    if days < YearDays(epoch) {
      m := Moment(epoch, days, micros);
    } else {
      m := MomentOf(epoch + 1, days - YearDays(epoch), micros);
      DaysJoin(epoch, epoch + 1, m.year);
      assert DaysFrom(epoch, epoch + 1) == YearDays(epoch);
    }
  }
}
