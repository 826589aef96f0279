/** Calendar dates and day numbers: the formulas against day-by-day counting. */
module Calendar {
  import opened CArithmetic

  datatype Date = Date(year: int, month: int, day: int)

  /** C's remainder is zero exactly when the mathematical one is, also for years before 0. */
  predicate IsLeap(year: int)
  {
    year % 4 == 0 && (year % 100 != 0 || year % 400 == 0)
  }

  /** The day table, indexed by month from 1. */
  function DaysIn(year: int, month: int): int
    requires 1 <= month <= 12
  {
    if month == 2 then (if IsLeap(year) then 29 else 28)
    else if month == 4 || month == 6 || month == 9 || month == 11 then 30
    else 31
  }

  predicate OnCalendar(d: Date)
  {
    1 <= d.month <= 12 && 1 <= d.day <= DaysIn(d.year, d.month)
  }

  /** The day after. */
  function NextDay(d: Date): (r: Date)
    requires OnCalendar(d)
    ensures OnCalendar(r) && Before(d, r)
  {
    if d.day < DaysIn(d.year, d.month) then Date(d.year, d.month, d.day + 1)
    else if d.month < 12 then Date(d.year, d.month + 1, 1)
    else Date(d.year + 1, 1, 1)
  }

  predicate Before(d: Date, e: Date)
  {
    d.year < e.year || (d.year == e.year && (d.month < e.month || (d.month == e.month && d.day < e.day)))
  }

  const FIRST := Date(-4713, 11, 24)
  const MAX_YEAR := 9999
  const MAX_DAY := 5373484

  /** The calendar counted from its first day. */
  function NthDay(n: nat): (d: Date)
    ensures OnCalendar(d)
  {
    if n == 0 then FIRST else NextDay(NthDay(n - 1))
  }

  /** The range test on dates. */
  predicate IsValidJulian(d: Date)
  {
    (d.year > -4713 || (d.year == -4713 && (d.month > 11 || (d.month == 11 && d.day >= 24)))) && d.year <= MAX_YEAR
  }

  // ---------- from a date to its number ----------

  /** Days before year y of the March-based count that starts in -4800, leap days included. */
  function YearDays(y: int): int
  {
    365 * y + y / 4 - y / 100 + y / 400
  }

  /** Days before a March-based month, and 122. */
  function MonthDays(m: int): int
  {
    7834 * m / 256
  }

  function Shifted(d: Date): (r: (int, int))
  {
    if d.month > 2 then (d.year + 4800, d.month + 1) else (d.year + 4799, d.month + 13)
  }

  function Number(d: Date): int
  {
    YearDays(Shifted(d).0) - 32167 + MonthDays(Shifted(d).1) + d.day
  }

  lemma StepBy4(y: int)
    ensures (y + 1) / 4 - y / 4 == if (y + 1) % 4 == 0 then 1 else 0
  {
  }

  lemma StepBy100(y: int)
    ensures (y + 1) / 100 - y / 100 == if (y + 1) % 100 == 0 then 1 else 0
    ensures (y + 1) % 100 == 0 ==> (y + 1) % 4 == 0
  {
  }

  lemma StepBy400(y: int)
    ensures (y + 1) / 400 - y / 400 == if (y + 1) % 400 == 0 then 1 else 0
  {
  }

  lemma CenturyOfFour(y: int)
    ensures (y + 1) % 400 == 0 ==> (y + 1) % 100 == 0
  {
  }

  lemma YearStep(y: int)
    ensures YearDays(y + 1) - YearDays(y) == if IsLeap(y + 1) then 366 else 365
  {
    StepBy4(y);
    StepBy100(y);
    StepBy400(y);
    CenturyOfFour(y);
  }

  lemma LeapCycle(y: int)
    ensures IsLeap(y + 4800) == IsLeap(y)
  {
    LeapRests(y);
  }

  lemma LeapRests(y: int)
    ensures (y + 4800) % 4 == y % 4
    ensures (y + 4800) % 100 == y % 100
    ensures (y + 4800) % 400 == y % 400
  {
    assert y + 4800 == 4 * (y / 4 + 1200) + y % 4;
    assert y + 4800 == 100 * (y / 100 + 48) + y % 100;
    assert y + 4800 == 400 * (y / 400 + 12) + y % 400;
  }

  lemma MonthTable(m: int)
    requires 4 <= m <= 15
    ensures MonthDays(m) == if m == 4 then 122 else if m == 5 then 153 else if m == 6 then 183 else if m == 7 then 214
                            else if m == 8 then 244 else if m == 9 then 275 else if m == 10 then 306
                            else if m == 11 then 336 else if m == 12 then 367 else if m == 13 then 397
                            else if m == 14 then 428 else 459
  {
  }

  /** Counting one day further adds one to the number. */
  lemma {:induction false} NextNumber(d: Date)
    requires OnCalendar(d)
    ensures Number(NextDay(d)) == Number(d) + 1
  {
    if d.day == DaysIn(d.year, d.month) { MonthRoll(d); }
  }

  lemma MonthRoll(d: Date)
    requires OnCalendar(d) && d.day == DaysIn(d.year, d.month)
    ensures Number(NextDay(d)) == Number(d) + 1
  {
    if d.month == 2 {
      FebruaryRoll(d);
    } else {
      MonthTable(Shifted(d).1);
      MonthTable(Shifted(NextDay(d)).1);
      assert Shifted(NextDay(d)).0 == Shifted(d).0;
    }
  }

  /** The March-based year ends with February. */
  lemma FebruaryRoll(d: Date)
    requires OnCalendar(d) && d.month == 2 && d.day == DaysIn(d.year, 2)
    ensures Number(NextDay(d)) == Number(d) + 1
  {
    MonthTable(15);
    MonthTable(4);
    YearStep(d.year + 4799);
    LeapCycle(d.year);
    assert Shifted(d) == (d.year + 4799, 15) && Shifted(NextDay(d)) == (d.year + 4800, 4);
  }

  lemma {:induction false} NumberOfNth(n: nat)
    ensures Number(NthDay(n)) == n
  {
    if n > 0 {
      NumberOfNth(n - 1);
      NextNumber(NthDay(n - 1));
    }
  }

  // ---------- order ----------

  lemma {:induction false} YearDaysMonotone(y: int, z: int)
    requires y <= z
    ensures YearDays(y) <= YearDays(z)
    decreases z - y
  {
    if y < z {
      YearDaysMonotone(y, z - 1);
      YearStep(z - 1);
    }
  }

  /** A date lies in its March-based year. */
  lemma WithinYear(d: Date)
    requires OnCalendar(d)
    ensures YearDays(Shifted(d).0) - 32167 + 122 < Number(d) <= YearDays(Shifted(d).0 + 1) - 32167 + 122
    ensures Shifted(d).1 < 15 ==> Number(d) <= YearDays(Shifted(d).0) - 32167 + MonthDays(Shifted(d).1 + 1)
  {
    MonthTable(Shifted(d).1);
    YearStep(Shifted(d).0);
    if Shifted(d).1 < 15 {
      MonthTable(Shifted(d).1 + 1);
    } else {
      LeapCycle(d.year);
    }
  }

  lemma {:induction false} MonthDaysMonotone(m: int, k: int)
    requires 4 <= m <= k <= 15
    ensures MonthDays(m) <= MonthDays(k)
  {
    MonthTable(m);
    MonthTable(k);
  }

  /** Earlier dates have smaller numbers. */
  lemma {:induction false} NumberMonotone(d: Date, e: Date)
    requires OnCalendar(d) && OnCalendar(e) && Before(d, e)
    ensures Number(d) < Number(e)
  {
    var (y, m) := Shifted(d);
    var (z, k) := Shifted(e);
    WithinYear(d);
    if y < z {
      WithinYear(e);
      YearDaysMonotone(y + 1, z);
    } else if m < k {
      MonthDaysMonotone(m + 1, k);
    }
  }

  lemma NumberInjective(d: Date, e: Date)
    requires OnCalendar(d) && OnCalendar(e) && Number(d) == Number(e)
    ensures d == e
  {
    if Before(d, e) { NumberMonotone(d, e); }
    if Before(e, d) { NumberMonotone(e, d); }
  }

  // ---------- from a number to its date ----------

  /** The century within 400 years, from the day within them. */
  lemma CenturyOf(r: int, c: int)
    requires 0 <= r < 146097 && c == (4 * r + 3) / 146097
    ensures 0 <= c <= 3 && 36524 * c <= r < 36524 * (c + 1) + (if c == 3 then 1 else 0)
  {
  }

  /** The day within four Julian years: year and day counted from March. */
  predicate QuadDay(r: int, yy: int, march: int)
  {
    0 <= march <= 365 && 0 <= yy <= 3 && yy == r * 4 / 1461 &&
    if yy == 0 then march == (if r < 60 then r + 306 else r - 60)
    else
      march == (if r - 366 - 365 * (yy - 1) < 59 then r - 366 - 365 * (yy - 1) + 306
                else r - 366 - 365 * (yy - 1) - 59)
  }

  lemma DayWithinQuad(r: int)
    requires 0 <= r < 1461
    ensures var yy := r * 4 / 1461; QuadDay(r, yy, if yy != 0 then (r + 305) % 365 else (r + 306) % 366)
  {
    var yy := r * 4 / 1461;
    if yy != 0 {
      var x := r - 366 - 365 * (yy - 1);
      assert 0 <= x < 365;
      assert yy == 1 || yy == 2 || yy == 3;
      assert (r + 305) % 365 == (x + 306) % 365;
    }
  }

  /** The month and its first day, from the day of the March-based year and 123. */
  lemma MonthOf(j: int)
    requires 123 <= j <= 488
    ensures var m := j * 2141 / 65536; 4 <= m <= 15 && MonthDays(m) < j && (m < 15 ==> j <= MonthDays(m + 1))
  {
    var m := j * 2141 / 65536;
    MonthTable(m);
    if m < 15 { MonthTable(m + 1); }
  }

  /** In the Julian calendar, days up to a day of a March-based year. */
  lemma JulianDays(q4: int, r4: int, yy: int, march: int)
    requires 0 <= r4 < 1461 && QuadDay(r4, yy, march)
    ensures var y := 4 * q4 + yy - (if march >= 306 then 1 else 0);
            365 * y + y / 4 + march + 60 == 1461 * q4 + r4
  {
    var y := 4 * q4 + yy - (if march >= 306 then 1 else 0);
    assert y / 4 == if yy == 0 && march >= 306 then q4 - 1 else q4;
  }

  /** A year of the 400-year cycle lies in the century that its days lie in. */
  lemma YearInCentury(r: int, c: int, y: int, march: int)
    requires 0 <= r < 146097 && c == (4 * r + 3) / 146097 && 0 <= march <= 365
    requires 365 * y + y / 4 + march == r + c && (march == 365 ==> (y + 1) % 4 == 0)
    ensures 100 * c <= y < 100 * (c + 1)
    ensures march == 365 && y == 100 * c + 99 ==> c == 3
  {
    CenturyOf(r, c);
  }

  /** The steps of the decoding, named. */
  ghost predicate Decoded(n: int, q: int, r: int, c: int, q4: int, r4: int, yy: int, march: int)
  {
    n + 32044 == 146097 * q + r && 0 <= r < 146097 && c == (4 * r + 3) / 146097 &&
    1461 * q4 + r4 == n + 32044 + 60 + 3 * q + c && 0 <= r4 < 1461 && QuadDay(r4, yy, march)
  }

  lemma DecodedYear(n: int, q: int, r: int, c: int, q4: int, r4: int, yy: int, march: int, y: int)
    requires Decoded(n, q, r, c, q4, r4, yy, march) && y == 4 * q4 + yy - (if march >= 306 then 1 else 0)
    ensures YearDays(y) + march - 32044 == n && (march == 365 ==> IsLeap(y + 1))
  {
    JulianDays(q4, r4, yy, march);
    var within := y - 400 * q;
    assert y / 4 == within / 4 + 100 * q;
    assert march == 365 ==> (within + 1) % 4 == 0;
    YearInCentury(r, c, within, march);
    assert y / 400 == q && y / 100 == 4 * q + c;
    if march == 365 { LastDayIsLeap(q, c, within); }
  }

  lemma LastDayIsLeap(q: int, c: int, within: int)
    requires 100 * c <= within < 100 * c + 100 && (within == 100 * c + 99 ==> c == 3) && (within + 1) % 4 == 0
    ensures IsLeap(within + 400 * q + 1)
  {
    var year := within + 400 * q + 1;
    FourRemains(within + 1, q, year);
    if within == 100 * c + 99 {
      WholeCycle(q + 1, year);
    } else {
      InsideCentury(4 * q + c, within + 1 - 100 * c, year);
    }
  }

  lemma FourRemains(x: int, q: int, year: int)
    requires x % 4 == 0 && year == x + 400 * q
    ensures year % 4 == 0
  {
    assert year == 4 * (x / 4 + 100 * q);
  }

  lemma WholeCycle(k: int, year: int)
    requires year == 400 * k
    ensures year % 400 == 0
  {
  }

  lemma InsideCentury(k: int, r: int, year: int)
    requires year == 100 * k + r && 0 < r < 100
    ensures year % 100 != 0
  {
  }

  /** Shifting the decoded date gives its March-based year and month back. */
  lemma ShiftedBack(q4: int, yy: int, march: int, m: int, y: int, d: Date)
    requires 4 <= m <= 15 && (march >= 306 <==> m >= 14) && y == 4 * q4 + yy - (if march >= 306 then 1 else 0)
    requires d.year == 4 * q4 + yy - 4800 && d.month == (m + 10) % 12 + 1
    ensures Shifted(d) == (y, m)
  {
  }

  /** The decoded date is on the calendar and has the number. */
  lemma DecodedDate(n: int, q: int, r: int, c: int, q4: int, r4: int, yy: int, march: int, m: int, d: Date)
    requires Decoded(n, q, r, c, q4, r4, yy, march) && m == (march + 123) * 2141 / 65536
    requires d == Date(4 * q4 + yy - 4800, (m + 10) % 12 + 1, march + 123 - MonthDays(m))
    ensures OnCalendar(d) && Number(d) == n
  {
    var y := 4 * q4 + yy - (if march >= 306 then 1 else 0);
    DecodedYear(n, q, r, c, q4, r4, yy, march, y);
    MonthOf(march + 123);
    MonthTable(m);
    if m < 15 { MonthTable(m + 1); }
    assert march >= 306 <==> m >= 14;
    ShiftedBack(q4, yy, march, m, y, d);
    if march == 365 { LeapCycle(d.year); }
  }

  /** The n-th day of the calendar is the only date on it with number n. */
  lemma DateIsNth(d: Date, n: nat)
    requires OnCalendar(d)
    ensures Number(d) == n <==> NthDay(n) == d
  {
    NumberOfNth(n);
    if Number(d) == n { NumberInjective(d, NthDay(n)); }
  }

  /** Counting reaches every date from the first one on, each once, in order. */
  lemma EveryDateIsCounted(d: Date)
    requires OnCalendar(d)
    ensures !Before(d, FIRST) <==> Number(d) >= 0
    ensures Number(d) >= 0 ==> NthDay(Number(d)) == d
  {
    assert Number(FIRST) == 0;
    if Before(d, FIRST) {
      NumberMonotone(d, FIRST);
    } else {
      if d != FIRST { NumberMonotone(FIRST, d); }
      DateIsNth(d, Number(d));
    }
  }

  lemma {:induction false} CountingKeepsOrder(m: nat, n: nat)
    ensures Before(NthDay(m), NthDay(n)) <==> m < n
  {
    NumberOfNth(m);
    NumberOfNth(n);
    if Before(NthDay(m), NthDay(n)) { NumberMonotone(NthDay(m), NthDay(n)); }
    if Before(NthDay(n), NthDay(m)) { NumberMonotone(NthDay(n), NthDay(m)); }
  }

  // ---------- the formula in 32-bit integers ----------

  /** The sum the C code forms: its shifted year and month and its month product are already 32 bits wide. */
  function Formula(d: Date): int
  {
    DaySum(Wrap32(Shifted(d).0), Wrap32(Shifted(d).1), d.day)
  }

  function DaySum(y: int, m: int, day: int): int
  {
    y * 365 - 32167 + (CDiv(y, 4) - CDiv(y, 100) + CDiv(CDiv(y, 100), 4)) + (CDiv(Wrap32(7834 * m), 256) + day)
  }

  lemma FormulaIsNumber(d: Date)
    requires 0 <= Shifted(d).0 <= INT32_MAX && -12 <= d.month <= 1000
    ensures Formula(d) == Number(d)
  {
    CenturyQuarter(Shifted(d).0);
  }

  lemma CenturyQuarter(y: nat)
    ensures y / 100 / 4 == y / 400
  {
  }

  lemma FormulaFarBack(d: Date)
    requires OnCalendar(d) && Shifted(d).0 < 0 && FitsInt32(d.year)
    ensures Before(d, FIRST) && Formula(d) < 0
  {
    MonthTable(Shifted(d).1);
  }

  /** A day number that fits 32 bits belongs to a year whose shift does. */
  lemma NumberBoundsYear(d: Date)
    requires OnCalendar(d) && !Before(d, FIRST) && Number(d) <= INT32_MAX
    ensures 0 <= Shifted(d).0 <= INT32_MAX
  {
    MonthTable(Shifted(d).1);
    LeapDays(Shifted(d).0);
  }

  lemma LeapDays(y: nat)
    ensures y / 4 - y / 100 + y / 400 >= 0
  {
  }

  lemma WrapFour(a: int, b: int, c: int, d: int)
    ensures Wrap32(Wrap32(Wrap32(Wrap32(a) + b) + c) + Wrap32(d)) == Wrap32(a + b + c + d)
  {
    WrapAdd32(a, b);
    WrapAdd32(a + b, c);
    WrapAdd32(a + b + c, Wrap32(d));
    WrapAdd32(d, a + b + c);
  }

  /**
   The day number of any 32-bit year, month and day. From the first day of the calendar on it is the
   number of days counted exactly when that number fits in 32 bits.
   */
  method DateToJulian(year: int, month: int, day: int) returns (julian: int)
    requires FitsInt32(year) && FitsInt32(month) && FitsInt32(day)
    ensures julian == Wrap32(Formula(Date(year, month, day)))
    ensures var d := Date(year, month, day);
            OnCalendar(d) && !Before(d, FIRST) ==>
              Number(d) >= 0 && NthDay(Number(d)) == d && (julian == Number(d) <==> Number(d) <= INT32_MAX)
    ensures var d := Date(year, month, day);
            OnCalendar(d) && Before(d, FIRST) && FitsInt32(Formula(d)) ==> julian < 0
  {
    FormulaOnCalendar(Date(year, month, day));
    var y, m := year, month;
    if m > 2 {
      m := Wrap32(m + 1);
      y := Wrap32(y + 4800);
    } else {
      m := Wrap32(m + 13);
      y := Wrap32(y + 4799);
    }
    julian := AddUp(y, m, day);
  }

  method AddUp(y: int, m: int, day: int) returns (julian: int)
    ensures julian == Wrap32(DaySum(y, m, day))
  {
    var century := CDiv(y, 100);
    julian := Wrap32(Wrap32(y * 365) - 32167);
    julian := Wrap32(julian + (CDiv(y, 4) - century + CDiv(century, 4)));
    julian := Wrap32(julian + Wrap32(CDiv(Wrap32(7834 * m), 256) + day));
    WrapFour(y * 365, -32167, CDiv(y, 4) - century + CDiv(century, 4), CDiv(Wrap32(7834 * m), 256) + day);
  }

  lemma {:induction false} FormulaOnCalendar(d: Date)
    requires FitsInt32(d.year)
    ensures OnCalendar(d) && !Before(d, FIRST) ==>
              Number(d) >= 0 && NthDay(Number(d)) == d && (Wrap32(Formula(d)) == Number(d) <==> Number(d) <= INT32_MAX)
    ensures OnCalendar(d) && Before(d, FIRST) && FitsInt32(Formula(d)) ==> Wrap32(Formula(d)) < 0
  {
    if OnCalendar(d) {
      EveryDateIsCounted(d);
      if Before(d, FIRST) {
        if Shifted(d).0 < 0 { FormulaFarBack(d); } else { FormulaIsNumber(d); }
      } else if Number(d) <= INT32_MAX {
        NumberBoundsYear(d);
        FormulaIsNumber(d);
      }
    }
  }

  method JulianToDate(julian: int) returns (year: int, month: int, day: int)
    requires 0 <= julian <= INT32_MAX
    ensures Date(year, month, day) == NthDay(julian)
  {
    var j := julian;
    j := j + 32044;
    var quad := j / 146097;
    var extra := (j - quad * 146097) * 4 + 3;
    ghost var q, r, c := quad, j - quad * 146097, extra / 146097;
    j := j + (60 + quad * 3 + extra / 146097);
    quad := j / 1461;
    j := j - quad * 1461;
    ghost var q4, r4 := quad, j;
    DayWithinQuad(r4);
    year := j * 4 / 1461;
    ghost var yy := year;
    j := if year != 0 then (j + 305) % 365 else (j + 306) % 366;
    ghost var march := j;
    assert Decoded(julian, q, r, c, q4, r4, yy, march);
    j := j + 123;
    year := year + quad * 4;
    year := year - 4800;
    quad := j * 2141 / 65536;
    day := j - 7834 * quad / 256;
    month := (quad + 10) % 12 + 1;
    DecodedIsNth(julian, q, r, c, q4, r4, yy, march, quad, Date(year, month, day));
  }

  lemma DecodedIsNth(n: nat, q: int, r: int, c: int, q4: int, r4: int, yy: int, march: int, m: int, d: Date)
    requires Decoded(n, q, r, c, q4, r4, yy, march) && m == (march + 123) * 2141 / 65536
    requires d == Date(4 * q4 + yy - 4800, (m + 10) % 12 + 1, march + 123 - MonthDays(m))
    ensures d == NthDay(n)
  {
    DecodedDate(n, q, r, c, q4, r4, yy, march, m, d);
    DateIsNth(d, n);
  }

  // ---------- the valid range ----------

  /** The days the constants name. */
  lemma {:induction false} Anchors(n: nat)
    ensures NthDay(n) == Date(9999, 12, 31) <==> n == MAX_DAY
    ensures NthDay(n) == Date(2000, 1, 1) <==> n == 2451545
    ensures NthDay(n) == Date(1970, 1, 1) <==> n == 2440588
  {
    AnchorNumbers();
    DateIsNth(Date(9999, 12, 31), n);
    DateIsNth(Date(2000, 1, 1), n);
    DateIsNth(Date(1970, 1, 1), n);
  }

  lemma AnchorNumbers()
    ensures Number(Date(9999, 12, 31)) == MAX_DAY
    ensures Number(Date(2000, 1, 1)) == 2451545 && Number(Date(1970, 1, 1)) == 2440588
  {
    assert YearDays(14799) == 365 * 14799 + 3699 - 147 + 36;
    assert YearDays(6799) == 365 * 6799 + 1699 - 67 + 16;
    assert YearDays(6769) == 365 * 6769 + 1692 - 67 + 16;
  }

  /** A calendar date passes the range test exactly when its number is in the range. */
  lemma ValidIffNumberInRange(d: Date)
    requires OnCalendar(d)
    ensures IsValidJulian(d) <==> 0 <= Number(d) <= MAX_DAY
  {
    var last := Date(9999, 12, 31);
    AnchorNumbers();
    EveryDateIsCounted(d);
    assert IsValidJulian(d) <==> !Before(d, FIRST) && !Before(last, d);
    if Before(last, d) {
      NumberMonotone(last, d);
    } else if d != last {
      NumberMonotone(d, last);
    }
  }

  /** The validity check: exactly the first 5373485 days of the calendar pass. */
  method IsValidDate(year: int, month: int, day: int) returns (valid: bool)
    ensures valid <==> exists n: nat :: n <= MAX_DAY && NthDay(n) == Date(year, month, day)
  {
    ghost var d := Date(year, month, day);
    if month < 1 || month > 12 { return false; }
    if day < 1 || day > 31 { return false; }
    if day > DaysIn(year, month) { return false; }
    valid := IsValidJulian(Date(year, month, day));
    ValidIffNumberInRange(d);
    EveryDateIsCounted(d);
    if n: nat :| n <= MAX_DAY && NthDay(n) == d { DateIsNth(d, n); }
  }
}
