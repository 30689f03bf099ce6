/**
Day counts for civil dates. `DaysFromCivil` is the closed form; `Next` is the calendar itself. The lemmas
show that the closed form numbers the days of the proleptic Gregorian calendar one by one.
*/
module Calendar {
  import opened Common

  /** Division that truncates toward zero, and its remainder. */
  function Quot(a: int, b: int): int
    requires b > 0
  {
    if a >= 0 then a / b else -((-a) / b)
  }

  function Rem(a: int, b: int): int
    requires b > 0
  {
    a - b * Quot(a, b)
  }

  predicate IsLeapYear(year: int) {
    (Rem(year, 4) == 0 && Rem(year, 100) != 0) || Rem(year, 400) == 0
  }

  function DaysInMonth(year: int, month: int): int {
    if month in {1, 3, 5, 7, 8, 10, 12} then 31
    else if month in {4, 6, 9, 11} then 30
    else if month == 2 then (if IsLeapYear(year) then 29 else 28)
    else 0
  }

  function DaysFromCivil(year: int, month: int, day: int): int {
    var year := if month <= 2 then year - 1 else year;
    var era := Quot(if year >= 0 then year else year - 399, 400);
    var yearOfEra := year - era * 400;
    var monthOf := if month > 2 then month - 3 else month + 9;
    var dayOfYear := Quot(153 * monthOf + 2, 5) + day - 1;
    var dayOfEra := yearOfEra * 365 + Quot(yearOfEra, 4) - Quot(yearOfEra, 100) + dayOfYear;
    era * 146_097 + dayOfEra - 719_468
  }

  // ----- The calendar -----

  datatype Date = Date(year: int, month: int, day: int) {
    /** The dates the range checks let through. */
    predicate Valid() { 1 <= month <= 12 && 1 <= day <= DaysInMonth(year, month) }

    function Number(): int { DaysFromCivil(year, month, day) }

    /** The following day. */
    function Next(): Date {
      if day < DaysInMonth(year, month) then Date(year, month, day + 1)
      else if month < 12 then Date(year, month + 1, 1)
      else Date(year + 1, 1, 1)
    }

    /** The preceding day. */
    function Previous(): Date {
      if day > 1 then Date(year, month, day - 1)
      else if month > 1 then Date(year, month - 1, DaysInMonth(year, month - 1))
      else Date(year - 1, 12, 31)
    }

    /** Calendar order. */
    predicate Before(other: Date) {
      year < other.year ||
      (year == other.year && (month < other.month || (month == other.month && day < other.day)))
    }
  }

  const EPOCH := Date(1970, 1, 1)

  /** The truncating division of a negative year, corrected by 399, is the floor. */
  lemma EraIsFloor(year: int)
    ensures Quot(if year >= 0 then year else year - 399, 400) == year / 400
  {
  }

  /** Remainders that truncate are zero exactly when Euclidean ones are. */
  lemma LeapByEuclid(year: int)
    ensures IsLeapYear(year) <==> (year % 4 == 0 && year % 100 != 0) || year % 400 == 0
  {
    assert Rem(year, 4) == 0 <==> year % 4 == 0;
    assert Rem(year, 100) == 0 <==> year % 100 == 0;
    assert Rem(year, 400) == 0 <==> year % 400 == 0;
  }

  /** The next calendar day has the next number: inside months, across month ends, leap days, century and era ends. */
  lemma NextIsOneMore(date: Date)
    requires date.Valid()
    ensures date.Next().Valid() && date.Next().Number() == date.Number() + 1
  {
    hide DaysFromCivil;
    var next := date.Next();
    if date.month == 2 && next.month == 3 {
      FebruaryEnds(date.year);
    } else {
      ByEra(date.year, date.month, date.day);
      ByEra(next.year, next.month, next.day);
    }
  }

  /** The closed form by era and year of the era, both counted from 1 March. */
  lemma ByEra(year: int, month: int, day: int)
    requires 1 <= month <= 12
    ensures var shifted := if month <= 2 then year - 1 else year;
            var yearOfEra, monthOf := shifted % 400, if month > 2 then month - 3 else month + 9;
            DaysFromCivil(year, month, day) ==
            shifted / 400 * 146_097 + yearOfEra * 365 + yearOfEra / 4 - yearOfEra / 100
            + (153 * monthOf + 2) / 5 + day - 1 - 719_468
  {
    EraIsFloor(if month <= 2 then year - 1 else year);
  }

  /** 1 March follows the last day of February, which is the 29th exactly in leap years. */
  lemma FebruaryEnds(year: int)
    ensures DaysFromCivil(year, 3, 1) == DaysFromCivil(year, 2, if IsLeapYear(year) then 29 else 28) + 1
  {
    hide DaysFromCivil;
    LeapByEuclid(year);
    ByEra(year, 3, 1);
    ByEra(year, 2, if IsLeapYear(year) then 29 else 28);
    YearOfEraSteps(year);
  }

  /** How era, leap-day and century counts change from one shifted year to the next. */
  lemma YearOfEraSteps(year: int)
    ensures var r, s := year % 400, (year - 1) % 400;
            if r == 0 then s == 399 && (year - 1) / 400 == year / 400 - 1
            else s == r - 1 && (year - 1) / 400 == year / 400
                 && r / 4 - s / 4 == (if year % 4 == 0 then 1 else 0)
                 && r / 100 - s / 100 == (if year % 100 == 0 then 1 else 0)
  {
    var e, r := year / 400, year % 400;
    assert year == 400 * e + r;
    assert year / 4 == 100 * e + r / 4 && year / 100 == 4 * e + r / 100;
  }

  /** 1970-01-01 has number zero. */
  lemma EpochIsZero()
    ensures EPOCH.Valid() && EPOCH.Number() == 0
  {
  }

  lemma NextInvertsPrevious(date: Date)
    requires date.Valid()
    ensures date.Previous().Valid() && date.Previous().Next() == date
    ensures date.Previous().Before(date)
  {
  }

  /** A linear code in calendar order; it only serves as a measure. */
  function Code(date: Date): int { date.year * 372 + (date.month - 1) * 31 + date.day - 1 }

  lemma CodeIsOrder(x: Date, y: Date)
    requires x.Valid() && y.Valid()
    ensures x.Before(y) <==> Code(x) < Code(y)
  {
  }

  /** Later dates have larger numbers. */
  lemma {:induction false} NumberIsIncreasing(x: Date, y: Date)
    requires x.Valid() && y.Valid() && x.Before(y)
    ensures x.Number() < y.Number()
    decreases Code(y) - Code(x)
  {
    CodeIsOrder(x, y);
    var p := y.Previous();
    NextInvertsPrevious(y);
    NextIsOneMore(p);
    CodeIsOrder(p, y);
    CodeIsOrder(x, p);
    if x != p {
      assert x.Before(p) by {
        if p.Before(x) { NothingBetween(p, x); }
      }
      NumberIsIncreasing(x, p);
    }
  }

  lemma NothingBetween(p: Date, x: Date)
    requires p.Valid() && x.Valid() && p.Before(x)
    ensures x == p.Next() || p.Next().Before(x)
  {
  }

  lemma NumberIsInjective(x: Date, y: Date)
    requires x.Valid() && y.Valid() && x.Number() == y.Number()
    ensures x == y
  {
    if x.Before(y) {
      NumberIsIncreasing(x, y);
    } else if y.Before(x) {
      NumberIsIncreasing(y, x);
    }
  }

  /** The date with number n, found by walking the calendar from the epoch. */
  function DateOf(n: int): (date: Date)
    ensures date.Valid()
    decreases if n < 0 then -n else n
  {
    if n == 0 then EPOCH
    else if n > 0 then
      var before := DateOf(n - 1);
      assert before.Next().Valid() by { NextIsOneMore(before); }
      before.Next()
    else
      var after := DateOf(n + 1);
      assert after.Previous().Valid() by { NextInvertsPrevious(after); }
      after.Previous()
  }

  /** Every integer is the number of exactly one valid date: the closed form is a bijection. */
  lemma {:induction false} NumberIsBijective(n: int)
    ensures DateOf(n).Number() == n
    ensures forall date: Date :: date.Valid() && date.Number() == n ==> date == DateOf(n)
    decreases if n < 0 then -n else n
  {
    if n > 0 {
      NumberIsBijective(n - 1);
      NextIsOneMore(DateOf(n - 1));
    } else if n < 0 {
      NumberIsBijective(n + 1);
      NextInvertsPrevious(DateOf(n + 1));
      NextIsOneMore(DateOf(n + 1).Previous());
    } else {
      EpochIsZero();
    }
    forall date: Date | date.Valid() && date.Number() == n ensures date == DateOf(n) {
      NumberIsInjective(date, DateOf(n));
    }
  }

  // ----- Timestamps -----

  datatype Time = Time(hour: int, minute: int, second: int) {
    /** A leap second is tolerated; hour and minute are strict. */
    predicate Valid() { 0 <= hour < 24 && 0 <= minute < 60 && 0 <= second <= 60 }
  }

  datatype DateError = MonthOutOfRange | DayOutOfRange | TimeOutOfRange

  /** The range checks and final arithmetic of the ISO-8601 reader, on fields already read as integers. */
  function ParseIsoUtc(date: Date, time: Option<Time>): (r: Result<int, DateError>)
    ensures r.Ok? <==> date.Valid() && (time.Some? ==> time.value.Valid())
    ensures r == Err(MonthOutOfRange) <==> !(1 <= date.month <= 12)
    ensures r == Err(DayOutOfRange) <==> 1 <= date.month <= 12 && !date.Valid()
    ensures r == Err(TimeOutOfRange) <==>
            date.Valid() && time.Some?
            && var Time(h, m, s) := time.value; h < 0 || h > 23 || m < 0 || m > 59 || s < 0 || s > 60
  {
    if !(1 <= date.month <= 12) then Err(MonthOutOfRange)
    else if !(1 <= date.day <= DaysInMonth(date.year, date.month)) then Err(DayOutOfRange)
    else
      var t := if time.Some? then time.value else Time(0, 0, 0);
      if !(0 <= t.hour < 24) || !(0 <= t.minute < 60) || !(0 <= t.second <= 60) then Err(TimeOutOfRange)
      else Ok(DaysFromCivil(date.year, date.month, date.day) * 86_400 + t.hour * 3_600 + t.minute * 60 + t.second)
  }

  /** The minute after (date, hour:minute). */
  function NextMinute(date: Date, t: Time): (Date, Time) {
    if t.minute < 59 then (date, Time(t.hour, t.minute + 1, 0))
    else if t.hour < 23 then (date, Time(t.hour + 1, 0, 0))
    else (date.Next(), Time(0, 0, 0))
  }

  predicate Earlier(d1: Date, t1: Time, d2: Date, t2: Time) {
    d1.Before(d2) ||
    (d1 == d2 && (t1.hour < t2.hour ||
                  (t1.hour == t2.hour && (t1.minute < t2.minute ||
                                          (t1.minute == t2.minute && t1.second < t2.second)))))
  }

  /** Timestamps keep the order of instants, and two instants share one only across a leap second. */
  lemma TimestampsAreOrdered(d1: Date, t1: Time, d2: Date, t2: Time)
    requires d1.Valid() && t1.Valid() && d2.Valid() && t2.Valid() && Earlier(d1, t1, d2, t2)
    ensures ParseIsoUtc(d1, Some(t1)).value <= ParseIsoUtc(d2, Some(t2)).value
    ensures ParseIsoUtc(d1, Some(t1)) == ParseIsoUtc(d2, Some(t2)) <==> t1.second == 60 && (d2, t2) == NextMinute(d1, t1)
  {
    hide DaysFromCivil;
    if d1.Before(d2) {
      NumberIsIncreasing(d1, d2);
      NextIsOneMore(d1);
      if d2.Number() == d1.Number() + 1 {
        NumberIsInjective(d2, d1.Next());
      }
    }
  }

  /** Without a time the day counts from midnight, and the epoch's midnight is zero. */
  lemma TimestampOrigin(date: Date)
    ensures ParseIsoUtc(date, None) == ParseIsoUtc(date, Some(Time(0, 0, 0)))
    ensures ParseIsoUtc(EPOCH, Some(Time(0, 0, 0))) == Ok(0)
  {
  }

  /** The following second; a leap second is followed by the next minute. */
  function NextSecond(date: Date, t: Time): (Date, Time) {
    if t.second < 59 then (date, Time(t.hour, t.minute, t.second + 1)) else NextMinute(date, t)
  }

  /** The timestamp of the next second is one more, and a leap second has that of the next minute. */
  lemma NextSecondIsOneMore(date: Date, t: Time)
    requires date.Valid() && t.Valid()
    ensures var (date', t') := NextSecond(date, t);
            date'.Valid() && t'.Valid()
            && ParseIsoUtc(date', Some(t')).value == ParseIsoUtc(date, Some(t)).value + if t.second == 60 then 0 else 1
  {
    hide DaysFromCivil, IsLeapYear;
    NextIsOneMore(date);
    var (date', t') := NextSecond(date, t);
    if date' == date { assert t'.Valid(); } else { assert date' == date.Next() && t' == Time(0, 0, 0); }
  }

  /** The timestamp of every year up to 292 billion either way fits a signed 64-bit integer. */
  lemma TimestampFits(date: Date, time: Time)
    requires date.Valid() && time.Valid() && -292_000_000_000 <= date.year <= 292_000_000_000
    ensures -0x8000_0000_0000_0000 <= ParseIsoUtc(date, Some(time)).value < 0x8000_0000_0000_0000
  {
    ByEra(date.year, date.month, date.day);
  }
}
